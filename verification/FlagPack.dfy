/** The two-bit bucket flags of khash, sixteen to a word. */
module FlagPack {
  import opened KhashTable

  /** 1ul << b */
  function Bit(b: nat): bv32
    requires b < 32
  {
    match b
    case 0 => 0x1
    case 1 => 0x2
    case 2 => 0x4
    case 3 => 0x8
    case 4 => 0x10
    case 5 => 0x20
    case 6 => 0x40
    case 7 => 0x80
    case 8 => 0x100
    case 9 => 0x200
    case 10 => 0x400
    case 11 => 0x800
    case 12 => 0x1000
    case 13 => 0x2000
    case 14 => 0x4000
    case 15 => 0x8000
    case 16 => 0x10000
    case 17 => 0x20000
    case 18 => 0x40000
    case 19 => 0x80000
    case 20 => 0x100000
    case 21 => 0x200000
    case 22 => 0x400000
    case 23 => 0x800000
    case 24 => 0x1000000
    case 25 => 0x2000000
    case 26 => 0x4000000
    case 27 => 0x8000000
    case 28 => 0x10000000
    case 29 => 0x20000000
    case 30 => 0x40000000
    case 31 => 0x80000000
  }

  predicate On(w: bv32, m: bv32) {
    w & m != 0
  }

  predicate Apart(m: bv32, n: bv32) {
    m & n == 0
  }

  function Cleared(w: bv32, m: bv32): bv32 {
    w & !m
  }

  function Set(w: bv32, m: bv32): bv32 {
    w | m
  }

  function Double(m: bv32): bv32 {
    m << 1
  }

  // ----- bit facts -----

  lemma BitStep(b: nat)
    requires b < 31
    ensures Bit(b + 1) == Double(Bit(b))
  {
    match b
    case 0 => assert Bit(1) == Double(Bit(0));
    case 1 => assert Bit(2) == Double(Bit(1));
    case 2 => assert Bit(3) == Double(Bit(2));
    case 3 => assert Bit(4) == Double(Bit(3));
    case 4 => assert Bit(5) == Double(Bit(4));
    case 5 => assert Bit(6) == Double(Bit(5));
    case 6 => assert Bit(7) == Double(Bit(6));
    case 7 => assert Bit(8) == Double(Bit(7));
    case 8 => assert Bit(9) == Double(Bit(8));
    case 9 => assert Bit(10) == Double(Bit(9));
    case 10 => assert Bit(11) == Double(Bit(10));
    case 11 => assert Bit(12) == Double(Bit(11));
    case 12 => assert Bit(13) == Double(Bit(12));
    case 13 => assert Bit(14) == Double(Bit(13));
    case 14 => assert Bit(15) == Double(Bit(14));
    case 15 => assert Bit(16) == Double(Bit(15));
    case 16 => assert Bit(17) == Double(Bit(16));
    case 17 => assert Bit(18) == Double(Bit(17));
    case 18 => assert Bit(19) == Double(Bit(18));
    case 19 => assert Bit(20) == Double(Bit(19));
    case 20 => assert Bit(21) == Double(Bit(20));
    case 21 => assert Bit(22) == Double(Bit(21));
    case 22 => assert Bit(23) == Double(Bit(22));
    case 23 => assert Bit(24) == Double(Bit(23));
    case 24 => assert Bit(25) == Double(Bit(24));
    case 25 => assert Bit(26) == Double(Bit(25));
    case 26 => assert Bit(27) == Double(Bit(26));
    case 27 => assert Bit(28) == Double(Bit(27));
    case 28 => assert Bit(29) == Double(Bit(28));
    case 29 => assert Bit(30) == Double(Bit(29));
    case 30 => assert Bit(31) == Double(Bit(30));
  }

  lemma LowestAlone(b: nat)
    requires 0 < b < 32
    ensures Apart(1, Bit(b))
  {
  }

  lemma DoublesApart(x: bv32, y: bv32)
    requires Apart(x, y)
    ensures Apart(Double(x), Double(y)) && Apart(y, x)
  {
  }

  lemma BitOn(b: nat, w: bv32)
    requires b < 32
    ensures On(Set(w, Bit(b)), Bit(b)) && !On(Cleared(w, Bit(b)), Bit(b))
  {
    hide Bit, On, Set, Cleared;
    BitIsNotZero(b);
    MaskOn(Bit(b), w);
  }

  lemma BitIsNotZero(b: nat)
    requires b < 32
    ensures Bit(b) != 0
  {
  }

  lemma MaskOn(m: bv32, w: bv32)
    requires m != 0
    ensures On(Set(w, m), m) && !On(Cleared(w, m), m)
  {
    SetMeets(m, w);
    ClearMisses(m, w);
  }

  lemma SetMeets(m: bv32, w: bv32)
    ensures (w | m) & m == m
  {
  }

  lemma ClearMisses(m: bv32, w: bv32)
    ensures (w & !m) & m == 0
  {
  }

  lemma SetKeeps(w: bv32, m: bv32, n: bv32)
    requires m & n == 0
    ensures (w | m) & n == w & n
  {
  }

  lemma ClearKeeps(w: bv32, m: bv32, n: bv32)
    requires m & n == 0
    ensures (w & !m) & n == w & n
  {
  }

  lemma OthersStay(w: bv32, m: bv32, n: bv32)
    requires Apart(m, n)
    ensures On(Set(w, m), n) == On(w, n) && On(Cleared(w, m), n) == On(w, n)
  {
    SetKeeps(w, m, n);
    ClearKeeps(w, m, n);
  }

  lemma {:induction false} BitsApart(a: nat, b: nat)
    requires a < b < 32
    ensures Apart(Bit(a), Bit(b)) && Apart(Bit(b), Bit(a))
  {
    if a == 0 {
      LowestAlone(b);
    } else {
      hide Bit, Double;
      BitsApart(a - 1, b - 1);
      BitStep(a - 1);
      BitStep(b - 1);
      DoublesApart(Bit(a - 1), Bit(b - 1));
    }
    DoublesApart(Bit(a), Bit(b));
  }

  lemma BitLaw(w: bv32, a: nat, b: nat)
    requires a < 32 && b < 32
    ensures On(Cleared(w, Bit(a)), Bit(b)) <==> On(w, Bit(b)) && a != b
    ensures On(Set(w, Bit(a)), Bit(b)) <==> On(w, Bit(b)) || a == b
  {
    hide Bit, On, Apart, Set, Cleared;
    if a == b {
      BitOn(a, w);
    } else {
      if a < b { BitsApart(a, b); } else { BitsApart(b, a); }
      OthersStay(w, Bit(a), Bit(b));
    }
  }

  lemma InitialWord(k: nat)
    requires k < 16
    ensures On(0xAAAA_AAAA, Bit(2 * k + 1)) && !On(0xAAAA_AAAA, Bit(2 * k))
  {
  }

  // ----- one bucket of a word -----

  /** flag >> ((i & 0xfU) << 1): the pair of bits of bucket k moved to the bottom. */
  function Shifted(w: bv32, k: nat): bv32
    requires k < 16
  {
    if k == 0 then w else Shifted(w >> 2, k - 1)
  }

  lemma ShiftMovesBit(w: bv32, m: bv32)
    requires m & 0xC000_0000 == 0
    ensures On(w >> 2, m) == On(w, Double(Double(m)))
  {
    assert (w >> 2) & m == (w & ((m << 1) << 1)) >> 2;
    assert (w & ((m << 1) << 1)) & 3 == 0;
  }

  lemma TopFree(b: nat)
    requires b < 30
    ensures Bit(b) & 0xC000_0000 == 0
  {
  }

  lemma {:induction false} ShiftedBits(w: bv32, k: nat, b: nat)
    requires k < 16 && 2 * k + b < 32
    ensures On(Shifted(w, k), Bit(b)) == On(w, Bit(2 * k + b))
    decreases k
  {
    hide Bit, On, Double;
    if k > 0 {
      var c := 2 * (k - 1) + b;
      ShiftedBits(w >> 2, k - 1, b);
      TopFree(c);
      ShiftMovesBit(w, Bit(c));
      BitStep(c);
      BitStep(c + 1);
    }
  }

  function FlagOf(w: bv32, k: nat): Flag
    requires k < 16
  {
    Flag(On(w, Bit(2 * k + 1)), On(w, Bit(2 * k)))
  }

  lemma WordLaw(w: bv32, b: nat, k: nat)
    requires b < 32 && k < 16
    ensures FlagOf(Cleared(w, Bit(b)), k) ==
            Flag(FlagOf(w, k).empty && b != 2 * k + 1, FlagOf(w, k).del && b != 2 * k)
    ensures FlagOf(Set(w, Bit(b)), k) ==
            Flag(FlagOf(w, k).empty || b == 2 * k + 1, FlagOf(w, k).del || b == 2 * k)
  {
    hide Bit, On, Set, Cleared;
    BitLaw(w, b, 2 * k);
    BitLaw(w, b, 2 * k + 1);
  }

  // ----- the flag array -----

  /** __ac_fsize: room for m buckets if m is less than 16 or a multiple of it. */
  function Fsize(m: nat): (words: nat)
    ensures m < 16 || m % 16 == 0 ==> m <= 16 * words
  {
    if m < 16 then 1 else m / 16
  }

  function Unpacked(words: seq<bv32>, n: nat): (fs: seq<Flag>)
    requires n <= 16 * |words|
    ensures |fs| == n
  {
    seq(n, i requires 0 <= i < n => FlagOf(words[i / 16], i % 16))
  }

  lemma UnpackedAt(words: seq<bv32>, n: nat, i: nat)
    requires i < n <= 16 * |words|
    ensures Unpacked(words, n)[i] == FlagOf(words[i / 16], i % 16)
  {
  }

  /** The two low bits of a shifted word. */
  lemma LowBits(words: seq<bv32>, n: nat, i: nat)
    requires i < n <= 16 * |words|
    ensures On(Shifted(words[i / 16], i % 16), 2) <==> Unpacked(words, n)[i].empty
    ensures On(Shifted(words[i / 16], i % 16), 1) <==> Unpacked(words, n)[i].del
  {
    hide Shifted, FlagOf, Unpacked, On, Bit;
    var w, k := words[i / 16], i % 16;
    ShiftedBits(w, k, 0);
    ShiftedBits(w, k, 1);
    UnpackedAt(words, n, i);
    FlagBits(w, k);
    LowestBits();
  }

  lemma FlagBits(w: bv32, k: nat)
    requires k < 16
    ensures FlagOf(w, k).empty == On(w, Bit(2 * k + 1)) && FlagOf(w, k).del == On(w, Bit(2 * k))
  {
  }

  lemma LowestBits()
    ensures Bit(1) == 2
    ensures Bit(0) == 1
  {
  }

  predicate IsEmpty(flag: array<bv32>, i: nat, ghost n: nat)
    requires i < n <= 16 * flag.Length
    reads flag
    ensures IsEmpty(flag, i, n) <==> Unpacked(flag[..], n)[i].empty
  {
    LowBits(flag[..], n, i);
    On(Shifted(flag[i / 16], i % 16), 2)
  }

  predicate IsDel(flag: array<bv32>, i: nat, ghost n: nat)
    requires i < n <= 16 * flag.Length
    reads flag
    ensures IsDel(flag, i, n) <==> Unpacked(flag[..], n)[i].del
  {
    LowBits(flag[..], n, i);
    On(Shifted(flag[i / 16], i % 16), 1)
  }

  lemma EitherBit(x: bv32)
    ensures x & 3 != 0 <==> On(x, Bit(0)) || On(x, Bit(1))
  {
  }

  lemma EitherLaw(words: seq<bv32>, n: nat, i: nat)
    requires i < n <= 16 * |words|
    ensures Shifted(words[i / 16], i % 16) & 3 != 0 <==> !Live(Unpacked(words, n)[i])
  {
    hide Bit, On, Shifted, Unpacked;
    var w := Shifted(words[i / 16], i % 16);
    LowBits(words, n, i);
    LowestBits();
    EitherBit(w);
  }

  predicate IsEither(flag: array<bv32>, i: nat, ghost n: nat)
    requires i < n <= 16 * flag.Length
    reads flag
    ensures IsEither(flag, i, n) <==> !Live(Unpacked(flag[..], n)[i])
  {
    EitherLaw(flag[..], n, i);
    Shifted(flag[i / 16], i % 16) & 3 != 0
  }

  /** A word changed for one bucket changes that bucket's flag and no other. */
  lemma OneBucket(words: seq<bv32>, n: nat, i: nat, w: bv32, f: Flag)
    requires i < n <= 16 * |words|
    requires FlagOf(w, i % 16) == f
    requires forall k :: 0 <= k < 16 && k != i % 16 ==> FlagOf(w, k) == FlagOf(words[i / 16], k)
    ensures Unpacked(words[i / 16 := w], n) == Unpacked(words, n)[i := f]
  {
    hide FlagOf;
    var now := Unpacked(words[i / 16 := w], n);
    forall j | 0 <= j < n ensures now[j] == Unpacked(words, n)[i := f][j] {
      if j / 16 == i / 16 && j != i { assert j % 16 != i % 16; }
    }
  }

  method SetIsDelTrue(flag: array<bv32>, i: nat, ghost n: nat)
    requires i < n <= 16 * flag.Length
    modifies flag
    ensures Unpacked(flag[..], n) == old(Unpacked(flag[..], n))[i := old(Unpacked(flag[..], n))[i].(del := true)]
  {
    hide Bit, On, Set, Cleared, FlagOf, Unpacked;
    UnpackedAt(flag[..], n, i);
    var w, k := flag[i / 16], i % 16;
    flag[i / 16] := Set(w, Bit(2 * k));
    forall m | 0 <= m < 16 { WordLaw(w, 2 * k, m); }
    OneBucket(old(flag[..]), n, i, flag[i / 16], FlagOf(w, k).(del := true));
  }

  method SetIsEmptyFalse(flag: array<bv32>, i: nat, ghost n: nat)
    requires i < n <= 16 * flag.Length
    modifies flag
    ensures Unpacked(flag[..], n) == old(Unpacked(flag[..], n))[i := old(Unpacked(flag[..], n))[i].(empty := false)]
  {
    hide Bit, On, Set, Cleared, FlagOf, Unpacked;
    UnpackedAt(flag[..], n, i);
    var w, k := flag[i / 16], i % 16;
    flag[i / 16] := Cleared(w, Bit(2 * k + 1));
    forall m | 0 <= m < 16 { WordLaw(w, 2 * k + 1, m); }
    OneBucket(old(flag[..]), n, i, flag[i / 16], FlagOf(w, k).(empty := false));
  }

  function Both(a: bv32, b: bv32): bv32 {
    a | b
  }

  lemma ClearBoth(w: bv32, a: bv32, b: bv32)
    ensures Cleared(w, Both(a, b)) == Cleared(Cleared(w, a), b)
  {
  }

  method SetIsBothFalse(flag: array<bv32>, i: nat, ghost n: nat)
    requires i < n <= 16 * flag.Length
    modifies flag
    ensures Unpacked(flag[..], n) == old(Unpacked(flag[..], n))[i := LIVE]
  {
    hide Bit, On, Set, Cleared, FlagOf, Unpacked, Both;
    var w, k := flag[i / 16], i % 16;
    flag[i / 16] := Cleared(w, Both(Bit(2 * k), Bit(2 * k + 1)));
    ClearBoth(w, Bit(2 * k), Bit(2 * k + 1));
    forall m | 0 <= m < 16 ensures FlagOf(flag[i / 16], m) == if m == k then LIVE else FlagOf(w, m) {
      WordLaw(w, 2 * k, m);
      WordLaw(Cleared(w, Bit(2 * k)), 2 * k + 1, m);
    }
    OneBucket(old(flag[..]), n, i, flag[i / 16], LIVE);
  }

  /** memset(flags, 0xaa, ...): every bucket empty. */
  method AllEmpty(words: nat) returns (flag: array<bv32>)
    ensures fresh(flag) && flag.Length == words
    ensures forall n: nat, i: nat :: i < n <= 16 * words ==> Unpacked(flag[..], n)[i] == EMPTY
  {
    hide Unpacked, FlagOf;
    flag := new bv32[words](i => 0xAAAA_AAAA);
    forall n: nat, i: nat | i < n <= 16 * words ensures Unpacked(flag[..], n)[i] == EMPTY {
      UnpackedAt(flag[..], n, i);
      InitialFlag(i % 16);
    }
  }

  lemma InitialFlag(k: nat)
    requires k < 16
    ensures FlagOf(0xAAAA_AAAA, k) == EMPTY
  {
    hide Bit, On;
    InitialWord(k);
  }
}
