/** Messages to files and back: raw seed files with their regions, and replay files. */
module MessageFiles {
  import opened Bytes
  import opened Klist

  // ----- reading messages out of a seed file -----

  /** fread of `len` bytes at `pos` into zeroed memory. */
  function Read(file: seq<byte>, pos: nat, len: nat): (m: Message)
    ensures |m| == len
  {
    if pos + len <= |file| then file[pos..pos + len]
    else if pos <= |file| then file[pos..] + seq(len - (|file| - pos), _ => 0)
    else seq(len, _ => 0)
  }

  /** The bytes of the file, and zeros behind its end. */
  lemma ReadBytes(file: seq<byte>, pos: nat, len: nat)
    ensures forall k :: 0 <= k < len ==> Read(file, pos, len)[k] == if pos + k < |file| then file[pos + k] else 0
  {
  }

  /** u32 region size. */
  function Size(r: Region): nat {
    if r.end + 1 >= r.start then r.end + 1 - r.start else (r.end + 1 - r.start) % 0x1_0000_0000
  }

  /** The file is read from the start, one region size after the other, wherever the
      regions claim to be. */
  function ReadFrom(file: seq<byte>, pos: nat, regions: seq<Region>): seq<Message>
    decreases |regions|
  {
    if regions == [] then []
    else [Read(file, pos, Size(regions[0]))] + ReadFrom(file, pos + Size(regions[0]), regions[1..])
  }

  /** Only the sizes of the regions matter. */
  lemma {:induction false} SizesDecide(file: seq<byte>, pos: nat, rs: seq<Region>, others: seq<Region>)
    requires |rs| == |others| && forall i :: 0 <= i < |rs| ==> Size(rs[i]) == Size(others[i])
    ensures ReadFrom(file, pos, rs) == ReadFrom(file, pos, others)
    decreases |rs|
  {
    hide Size, Read;
    if rs != [] { SizesDecide(file, pos + Size(rs[0]), rs[1..], others[1..]); }
  }

  lemma {:induction false} ReadFromSnoc(file: seq<byte>, pos: nat, rs: seq<Region>, i: nat)
    requires i < |rs|
    ensures ReadFrom(file, pos, rs[..i + 1]) ==
            ReadFrom(file, pos, rs[..i]) + [Read(file, pos + Total(rs[..i]), Size(rs[i]))]
    ensures Total(rs[..i + 1]) == Total(rs[..i]) + Size(rs[i])
    decreases i
  {
    if i > 0 {
      ReadFromSnoc(file, pos + Size(rs[0]), rs[1..], i - 1);
      assert rs[..i + 1][1..] == rs[1..][..i] && rs[..i][1..] == rs[1..][..i - 1];
    } else {
      assert rs[..1] == [rs[0]] && rs[..0] == [] && rs[..1][1..] == [];
      assert ReadFrom(file, pos + Size(rs[0]), rs[..1][1..]) == [];
      assert Total(rs[..1][1..]) == 0;
    }
  }

  function Total(rs: seq<Region>): nat {
    if rs == [] then 0 else Size(rs[0]) + Total(rs[1..])
  }

  /** construct_kl_messages. */
  method ConstructKlMessages(file: seq<byte>, regions: seq<Region>) returns (kl_messages: List)
    ensures kl_messages.Valid() && fresh(kl_messages.Repr)
    ensures kl_messages.contents == ReadFrom(file, 0, regions)
  {
    kl_messages := new List();
    var fpos := 0;
    for i := 0 to |regions|
      invariant kl_messages.Valid() && fresh(kl_messages.Repr)
      invariant fpos == Total(regions[..i])
      invariant kl_messages.contents == ReadFrom(file, 0, regions[..i])
    {
      var len := Size(regions[i]);
      var m := Read(file, fpos, len);
      fpos := fpos + len;
      kl_messages.Push(m);
      ReadFromSnoc(file, 0, regions, i);
    }
    assert regions[..|regions|] == regions;
  }

  /** When the regions are contiguous from 0, as every framer makes them, each message is the
      slice of the file that its region names. */
  lemma {:induction false} ReadsNamedSlices(file: seq<byte>, rs: seq<Region>, from: nat, to: nat)
    requires Tiles(rs, from, to) && to <= |file|
    ensures |ReadFrom(file, from, rs)| == |rs|
    ensures forall i :: 0 <= i < |rs| ==>
              rs[i].start <= rs[i].end < |file| && ReadFrom(file, from, rs)[i] == file[rs[i].start..rs[i].end + 1]
    ensures from <= to && Concat(ReadFrom(file, from, rs)) == file[from..to]
    decreases |rs|
  {
    TilesBound(rs, from, to);
    if rs != [] {
      var mid := rs[0].end + 1;
      TilesBound(rs[1..], mid, to);
      ReadsNamedSlices(file, rs[1..], mid, to);
      var ms := ReadFrom(file, from, rs);
      assert ms[1..] == ReadFrom(file, mid, rs[1..]);
      assert file[from..to] == file[from..mid] + file[mid..to];
      forall i | 0 <= i < |rs|
        ensures rs[i].start <= rs[i].end < |file| && ms[i] == file[rs[i].start..rs[i].end + 1]
      {
        if i > 0 { assert rs[i] == rs[1..][i - 1] && ms[i] == ms[1..][i - 1]; }
      }
    }
  }

  // ----- writing them back -----

  /** Little-endian unsigned int. */
  function Le32(n: nat): (r: seq<byte>)
    requires n < 0x1_0000_0000
    ensures |r| == 4
  {
    [n % 256, n / 256 % 256, n / 0x1_0000 % 256, n / 0x100_0000]
  }

  function FromLe32(s: seq<byte>): nat
    requires |s| == 4
  {
    (s[0] as nat) + 256 * (s[1] as nat) + 0x1_0000 * (s[2] as nat) + 0x100_0000 * (s[3] as nat)
  }

  /** Least significant byte first, both ways. */
  lemma Le32RoundTrip(n: nat)
    requires n < 0x1_0000_0000
    ensures FromLe32(Le32(n)) == n
    ensures var s := Le32(n); (s[0] as nat) + 256 * ((s[1] as nat) + 256 * ((s[2] as nat) + 256 * (s[3] as nat))) == n
  {
    var a, b := n / 256, n / 0x1_0000;
    assert n == 256 * a + n % 256;
    assert a == 256 * b + a % 256;
    assert b == 256 * (n / 0x100_0000) + b % 256;
  }

  ghost predicate Sized(ms: seq<Message>) {
    forall i :: 0 <= i < |ms| ==> |ms[i]| < 0x1_0000_0000
  }

  /** The replay format: each message after its size. */
  function ReplayFile(ms: seq<Message>): seq<byte>
    requires Sized(ms)
  {
    if ms == [] then [] else ReplayFile(ms[..|ms| - 1]) + Le32(|ms[|ms| - 1]|) + ms[|ms| - 1]
  }

  lemma ReplayFileSnoc(ms: seq<Message>, i: nat)
    requires i < |ms| && Sized(ms)
    ensures ReplayFile(ms[..i + 1]) == ReplayFile(ms[..i]) + Le32(|ms[i]|) + ms[i]
  {
    hide Le32;
    assert ms[..i + 1][..i] == ms[..i];
  }

  lemma ConcatSnoc(ms: seq<Message>, i: nat)
    requires i < |ms|
    ensures Concat(ms[..i + 1]) == Concat(ms[..i]) + ms[i]
  {
    ConcatAppend(ms[..i], [ms[i]]);
    ConcatOne(ms[i]);
    assert ms[..i + 1] == ms[..i] + [ms[i]];
  }

  lemma NothingSaved()
    ensures ReplayFile([]) == [] && Concat([]) == []
  {
  }

  /** save_kl_messages_to_file: the first max_count messages, raw or for replay. */
  method SaveKlMessages(kl_messages: List, replay_enabled: bool, max_count: nat) returns (mem: seq<byte>)
    requires kl_messages.Valid() && Sized(kl_messages.contents)
    ensures var ms := kl_messages.contents[..Min(max_count, |kl_messages.contents|)];
            mem == if replay_enabled then ReplayFile(ms) else Concat(ms)
  {
    hide Distinct, Apart, ReplayFile, Concat, Le32;
    mem := [];
    NothingSaved();
    var message_count := 0;
    var it := kl_messages.head;
    ghost var ms := kl_messages.contents;
    assert ms[..0] == [];
    while it != kl_messages.tail && message_count < max_count
      invariant 0 <= message_count <= |ms| && message_count <= max_count
      invariant it == kl_messages.nodes[message_count]
      invariant mem == if replay_enabled then ReplayFile(ms[..message_count]) else Concat(ms[..message_count])
      decreases |ms| - message_count
    {
      var message_size := |it.data|;
      assert it.data == ms[message_count];
      if replay_enabled {
        mem := mem + Le32(message_size) + it.data;
        ReplayFileSnoc(ms, message_count);
      } else {
        mem := mem + it.data;
        ConcatSnoc(ms, message_count);
      }
      assert it.next == kl_messages.nodes[message_count + 1];
      it := it.next;
      message_count := message_count + 1;
    }
    if message_count < max_count { TailIsLast(kl_messages, message_count); }
  }

  lemma TailIsLast(kl: List, i: nat)
    requires kl.Linked() && i < |kl.nodes| && kl.nodes[i] == kl.tail
    ensures i == |kl.nodes| - 1
  {
  }

  /** The regions of messages written one after the other from `start`. */
  function RegionsFrom(ms: seq<Message>, start: nat): seq<Region>
    requires start == 0 ==> ms == [] || ms[0] != []
  {
    if ms == [] then [] else [Region(start, start + |ms[0]| - 1)] + RegionsFrom(ms[1..], start + |ms[0]|)
  }

  lemma {:induction false} RegionsFromSnoc(ms: seq<Message>, i: nat, start: nat)
    requires i < |ms| && (start == 0 ==> ms[0] != [])
    ensures var at := start + |Concat(ms[..i])|;
            RegionsFrom(ms[..i + 1], start) == RegionsFrom(ms[..i], start) + [Region(at, at + |ms[i]| - 1)]
    decreases i
  {
    if i == 0 {
      assert ms[..1] == [ms[0]] && ms[..0] == [] && ms[..1][1..] == [];
      assert RegionsFrom(ms[..1][1..], start + |ms[0]|) == [];
    } else {
      RegionsFromSnoc(ms[1..], i - 1, start + |ms[0]|);
      assert ms[..i + 1][1..] == ms[1..][..i] && ms[..i][1..] == ms[1..][..i - 1];
    }
  }

  /** Region i starts where the messages before it end, and is as long as its message. */
  lemma {:induction false} RegionsAdjoin(ms: seq<Message>, start: nat, i: nat)
    requires i < |ms| && (start == 0 ==> ms[0] != [])
    ensures var rs := RegionsFrom(ms, start);
            |rs| == |ms| && rs[i].start == start + |Concat(ms[..i])| && rs[i].end + 1 == rs[i].start + |ms[i]|
    decreases |ms|
  {
    if i == 0 {
      assert ms[..0] == [];
      if |ms| > 1 { RegionsAdjoin(ms[1..], start + |ms[0]|, 0); }
    } else {
      RegionsAdjoin(ms[1..], start + |ms[0]|, i - 1);
      assert ms[..i][1..] == ms[1..][..i - 1];
    }
  }

  datatype Converted = Fatal | Regions(regions: seq<Region>)

  /** convert_kl_messages_to_regions, fatal when the first message is empty. */
  method ConvertKlMessages(kl_messages: List, max_count: nat) returns (r: Converted)
    requires kl_messages.Valid()
    ensures var ms := kl_messages.contents[..Min(max_count, |kl_messages.contents|)];
            r == if ms != [] && ms[0] == [] then Fatal else Regions(RegionsFrom(ms, 0))
  {
    hide Distinct, Apart;
    var regions: seq<Region> := [];
    var region_count := 1;
    var cur_start: nat, cur_end: int := 0, 0;
    var it := kl_messages.head;
    ghost var ms := kl_messages.contents;
    assert ms[..0] == [];
    while it != kl_messages.tail && region_count <= max_count
      invariant 1 <= region_count <= |ms| + 1 && region_count <= max_count + 1
      invariant it == kl_messages.nodes[region_count - 1]
      invariant region_count > 1 ==> ms[0] != []
      invariant regions == RegionsFrom(ms[..region_count - 1], 0)
      invariant cur_start == |Concat(ms[..region_count - 1])|
      decreases |ms| - region_count
    {
      ghost var i := region_count - 1;
      assert it.data == ms[i];
      cur_end := cur_start + |it.data| - 1;
      if i > 0 { ConcatPositive(ms, i); }
      if cur_end < 0 {
        return Fatal;
      }
      RegionsFromSnoc(ms, i, 0);
      ConcatSnoc(ms, i);
      regions := regions + [Region(cur_start, cur_end)];
      cur_start := cur_end + 1;
      region_count := region_count + 1;
      assert it.next == kl_messages.nodes[i + 1];
      it := it.next;
    }
    if region_count <= max_count { TailIsLast(kl_messages, region_count - 1); }
    return Regions(regions);
  }

  lemma ConcatPositive(ms: seq<Message>, i: nat)
    requires 0 < i <= |ms| && ms[0] != []
    ensures |Concat(ms[..i])| > 0
  {
    assert ms[..i][0] == ms[0];
  }

  // ----- round trips -----

  lemma ReadMiddle(before: seq<byte>, m: Message, after: seq<byte>)
    ensures Read(before + m + after, |before|, |m|) == m
  {
    assert (before + m + after)[|before|..|before| + |m|] == m;
  }

  /** Saved raw and cut at the regions saved with them, messages come back unchanged. */
  lemma {:induction false} RawRoundTrip(ms: seq<Message>, before: seq<byte>, after: seq<byte>)
    requires before == [] ==> ms == [] || ms[0] != []
    ensures ReadFrom(before + Concat(ms) + after, |before|, RegionsFrom(ms, |before|)) == ms
    decreases |ms|
  {
    hide Read, Size;
    if ms != [] {
      var m, rest := ms[0], Concat(ms[1..]);
      var file := before + m + (rest + after);
      assert before + Concat(ms) + after == file == (before + m) + rest + after;
      RawRoundTrip(ms[1..], before + m, after);
      ReadMiddle(before, m, rest + after);
      SizeOf(|before|, |m|);
    }
  }

  lemma SizeOf(start: nat, n: nat)
    requires start + n > 0
    ensures Size(Region(start, start + n - 1)) == n
  {
  }

  /** add_to_queue's raw file and regions, read back when the seed is fuzzed. */
  method SaveAndReload(kl_messages: List, max_count: nat) returns (r: Converted, reloaded: List)
    requires kl_messages.Valid() && Sized(kl_messages.contents)
    ensures fresh(reloaded.Repr) && reloaded.Valid()
    ensures r.Regions? ==> reloaded.contents == kl_messages.contents[..Min(max_count, |kl_messages.contents|)]
    ensures r.Fatal? <==> max_count > 0 && kl_messages.contents != [] && kl_messages.contents[0] == []
  {
    hide ReadFrom, RegionsFrom;
    ghost var ms := kl_messages.contents[..Min(max_count, |kl_messages.contents|)];
    var file := SaveKlMessages(kl_messages, false, max_count);
    r := ConvertKlMessages(kl_messages, max_count);
    reloaded := ConstructKlMessages(file, if r.Regions? then r.regions else []);
    if r.Regions? {
      RawRoundTrip(ms, [], []);
      assert [] + Concat(ms) + [] == file;
    }
  }

  /** The read loop of aflnet-replay.  A size cut off by the end of the file ends it; a
      message cut off is padded with zeros. */
  function DecodeFrom(file: seq<byte>, pos: nat): seq<Message>
    decreases |file| - pos
  {
    if pos + 4 > |file| then []
    else
      var size := FromLe32(file[pos..pos + 4]);
      [Read(file, pos + 4, size)] + DecodeFrom(file, pos + 4 + size)
  }

  lemma DecodeOne(file: seq<byte>, pos: nat, sent: seq<Message>)
    requires pos + 4 <= |file|
    ensures var size := FromLe32(file[pos..pos + 4]);
            sent + DecodeFrom(file, pos) ==
            sent + [Read(file, pos + 4, size)] + DecodeFrom(file, pos + 4 + size)
  {
    hide FromLe32, Read;
  }

  lemma DecodeEnd(file: seq<byte>, pos: nat)
    requires pos + 4 > |file|
    ensures DecodeFrom(file, pos) == []
  {
  }

  method DecodeReplayFile(file: seq<byte>) returns (packets: seq<Message>)
    ensures packets == DecodeFrom(file, 0)
  {
    hide FromLe32, Read, DecodeFrom;
    packets := [];
    var fpos := 0;
    var feof := false;
    while !feof
      invariant DecodeFrom(file, 0) == packets + if feof then [] else DecodeFrom(file, fpos)
      decreases if feof then 0 else 1, if fpos <= |file| then |file| - fpos + 1 else 0
    {
      if fpos + 4 <= |file| {
        var size := FromLe32(file[fpos..fpos + 4]);
        var buf := Read(file, fpos + 4, size);
        DecodeOne(file, fpos, packets);
        packets := packets + [buf];
        fpos := fpos + 4 + size;
      } else {
        DecodeEnd(file, fpos);
        feof := true;
      }
    }
  }

  lemma {:induction false} DecodeAfter(ms: seq<Message>, before: seq<byte>)
    requires Sized(ms)
    ensures DecodeFrom(before + ReplayFileFrom(ms), |before|) == ms
    decreases |ms|
  {
    hide Le32, FromLe32, Read;
    var file := before + ReplayFileFrom(ms);
    if ms != [] {
      var m, rest, at := ms[0], ReplayFileFrom(ms[1..]), before + Le32(|ms[0]|);
      DecodeAfter(ms[1..], at + m);
      assert file == at + m + rest;
      assert file[|before|..|before| + 4] == Le32(|m|);
      Le32RoundTrip(|m|);
      ReadMiddle(at, m, rest);
      assert DecodeFrom(file, |before|) == [Read(file, |at|, |m|)] + DecodeFrom(file, |at + m|);
    }
  }

  function ReplayFileFrom(ms: seq<Message>): seq<byte>
    requires Sized(ms)
  {
    if ms == [] then [] else Le32(|ms[0]|) + ms[0] + ReplayFileFrom(ms[1..])
  }

  lemma {:induction false} ReplayFileBothWays(ms: seq<Message>)
    requires Sized(ms)
    ensures ReplayFile(ms) == ReplayFileFrom(ms)
    decreases |ms|
  {
    hide Le32;
    if |ms| == 1 {
      assert ms[..0] == [] && ms[1..] == [];
    } else if |ms| > 1 {
      var n := |ms| - 1;
      ReplayFileBothWays(ms[..n]);
      ReplayFileBothWays(ms[1..]);
      ReplayFileBothWays(ms[1..n]);
      assert ms[..n][1..] == ms[1..n] == ms[1..][..n - 1];
    }
  }

  /** What afl-fuzz saves for replay, aflnet-replay sends. */
  lemma ReplayRoundTrip(ms: seq<Message>)
    requires Sized(ms)
    ensures DecodeFrom(ReplayFile(ms), 0) == ms
  {
    ReplayFileBothWays(ms);
    DecodeAfter(ms, []);
    assert [] + ReplayFileFrom(ms) == ReplayFileFrom(ms);
  }

  /** A file cut off in a message ends with what is there and zeros; one cut off in a size just
      ends. */
  lemma CutOffReplay(ms: seq<Message>, size: nat, part: seq<byte>, rest: seq<byte>)
    requires Sized(ms) && |part| < size < 0x1_0000_0000 && |rest| < 4
    ensures DecodeFrom(ReplayFileFrom(ms) + (Le32(size) + part), 0) == ms + [part + seq(size - |part|, _ => 0)]
    ensures DecodeFrom(ReplayFileFrom(ms) + rest, 0) == ms
  {
    hide Le32, DecodeFrom;
    DecodeCutOff(size, part);
    DecodePrefix(ms, Le32(size) + part);
    DecodeEnd(rest, 0);
    DecodePrefix(ms, rest);
  }

  lemma DecodeCutOff(size: nat, part: seq<byte>)
    requires |part| < size < 0x1_0000_0000
    ensures DecodeFrom(Le32(size) + part, 0) == [part + seq(size - |part|, _ => 0)]
  {
    hide Le32, FromLe32;
    var file := Le32(size) + part;
    assert file[0..4] == Le32(size) && file[4..] == part;
    Le32RoundTrip(size);
    assert Read(file, 4, size) == part + seq(size - |part|, _ => 0);
    hide Read;
    DecodeEnd(file, 4 + size);
  }

  /** Whole messages in front do not matter to the rest of the file. */
  lemma {:induction false} DecodePrefix(ms: seq<Message>, rest: seq<byte>)
    requires Sized(ms)
    ensures DecodeFrom(ReplayFileFrom(ms) + rest, 0) == ms + DecodeFrom(rest, 0)
    decreases |ms|
  {
    hide Le32, DecodeFrom;
    if ms == [] {
      assert ReplayFileFrom(ms) + rest == rest;
    } else {
      var head, more := Le32(|ms[0]|) + ms[0], ReplayFileFrom(ms[1..]);
      assert ReplayFileFrom(ms) == head + more;
      hide ReplayFileFrom;
      assert (head + more) + rest == head + (more + rest);
      DecodePrefix(ms[1..], rest);
      DecodeFirst(ms[0], more + rest);
      DecodeShift(head, more + rest, 0);
    }
  }

  lemma DecodeFirst(m: Message, more: seq<byte>)
    requires |m| < 0x1_0000_0000
    ensures DecodeFrom(Le32(|m|) + m + more, 0) == [m] + DecodeFrom(Le32(|m|) + m + more, |Le32(|m|) + m|)
  {
    hide Le32, FromLe32, Read;
    var file := Le32(|m|) + m + more;
    assert file[0..4] == Le32(|m|);
    Le32RoundTrip(|m|);
    ReadMiddle(Le32(|m|), m, more);
  }

  /** Decoding does not depend on where in a file it happens. */
  lemma {:induction false} DecodeShift(before: seq<byte>, file: seq<byte>, pos: nat)
    ensures DecodeFrom(before + file, |before| + pos) == DecodeFrom(file, pos)
    decreases |file| - pos
  {
    hide FromLe32, Read;
    if pos + 4 <= |file| {
      assert (before + file)[|before| + pos..|before| + pos + 4] == file[pos..pos + 4];
      var size := FromLe32(file[pos..pos + 4]);
      DecodeShift(before, file, pos + 4 + size);
      ReadShift(before, file, pos + 4, size);
    }
  }

  lemma ReadShift(before: seq<byte>, file: seq<byte>, pos: nat, len: nat)
    ensures Read(before + file, |before| + pos, len) == Read(file, pos, len)
  {
  }

  method SaveAndReplay(kl_messages: List, max_count: nat) returns (packets: seq<Message>)
    requires kl_messages.Valid() && Sized(kl_messages.contents)
    ensures packets == kl_messages.contents[..Min(max_count, |kl_messages.contents|)]
  {
    var file := SaveKlMessages(kl_messages, true, max_count);
    packets := DecodeReplayFile(file);
    ReplayRoundTrip(kl_messages.contents[..Min(max_count, |kl_messages.contents|)]);
  }
}
