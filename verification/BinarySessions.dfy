/** What the binary framers make of sessions whose records are well formed. */
module BinarySessions {
  import opened Bytes
  import opened Framers
  import opened BinaryFramers
  import opened Sessions

  /** Bytes 3 and 4 say how much follows the five bytes of the header. */
  predicate TlsRecord(m: Message) {
    |m| >= 5 && |m| == 5 + 256 * (m[3] as nat) + m[4]
  }

  /** Bytes 2 to 5 say how much follows the six bytes of the header. */
  predicate DicomPdu(m: Message) {
    |m| >= 6 &&
    |m| == 6 + 0x100_0000 * (m[2] as nat) + 0x1_0000 * (m[3] as nat) + 0x100 * (m[4] as nat) + m[5]
  }

  predicate DtlsHeader(m: Message, k: nat)
    requires k + 2 < |m|
  {
    20 <= m[k] <= 24 && m[k + 1] == 254 && m[k + 2] == 253
  }

  /** A header and no second one, nor half of one at the end. */
  predicate DtlsRecord(m: Message) {
    && |m| >= 4 && DtlsHeader(m, 0) && (forall k :: 0 < k < |m| - 2 ==> !DtlsHeader(m, k))
    && m[|m| - 1] != 254
  }

  lemma FirstMessage(buf: seq<byte>, start: nat, ms: seq<Message>)
    requires start <= |buf| && buf[start..] == Concat(ms) && ms != []
    ensures start + |ms[0]| <= |buf| && buf[start..start + |ms[0]|] == ms[0]
    ensures forall k: nat :: k < |ms[0]| ==> buf[start + k] == ms[0][k]
    ensures buf[start + |ms[0]|..] == Concat(ms[1..])
  {
    var n := |ms[0]|;
    assert buf[start..][..n] == buf[start..start + n] && buf[start..][n..] == buf[start + n..];
    forall k: nat | k < n ensures buf[start + k] == ms[0][k] {
      assert buf[start..][k] == buf[start + k];
    }
  }

  // ----- TLS -----

  ghost predicate TlsFrom(buf: seq<byte>, start: nat, rs: seq<Region>) {
    && Tiles(rs, start, |buf|)
    && (rs != [] ==> Records(buf, rs[..|rs| - 1]) && LastRecord(buf, rs[|rs| - 1].start))
  }

  lemma TlsNext(buf: seq<byte>, start: nat, rs: seq<Region>)
    requires TlsFrom(buf, start, rs) && rs != []
    ensures rs[0].start == start <= rs[0].end < |buf| && TlsFrom(buf, rs[0].end + 1, rs[1..])
    ensures if |rs| == 1 then rs[0].end == |buf| - 1 && LastRecord(buf, start)
            else rs[0].end + 2 < |buf| && start + 5 <= |buf| && rs[0].end == start + 4 + RecordLength(buf, start)
  {
    hide RecordLength;
    if |rs| > 1 {
      assert rs[..|rs| - 1][0] == rs[0];
      assert rs[1..][..|rs| - 2] == rs[..|rs| - 1][1..];
    }
  }

  lemma {:induction false} TlsSession(buf: seq<byte>, start: nat, rs: seq<Region>, ms: seq<Message>)
    requires start <= |buf| && buf[start..] == Concat(ms) && forall m :: m in ms ==> TlsRecord(m)
    requires TlsFrom(buf, start, rs)
    ensures Slices(buf, rs) == ms
    decreases |ms|
  {
    hide TlsFrom;
    if ms == [] {
      NothingLeft(buf, start, rs);
    } else {
      FirstMessage(buf, start, ms);
      assert ms[0] in ms && TlsRecord(ms[0]);
      RegionsLeft(buf, start, rs);
      TlsNext(buf, start, rs);
      if |ms| > 1 { assert TlsRecord(ms[1]) && |Concat(ms[1..])| >= |ms[1]|; } else { assert Concat(ms[1..]) == []; }
      assert RecordLength(buf, start) == |ms[0]| - 5;
      assert rs[0].end + 1 == start + |ms[0]|;
      TlsSession(buf, rs[0].end + 1, rs[1..], ms[1..]);
      FirstSlice(buf, rs);
    }
  }

  lemma NothingLeft(buf: seq<byte>, start: nat, rs: seq<Region>)
    requires TlsFrom(buf, start, rs) && start == |buf|
    ensures rs == []
  {
  }

  lemma RegionsLeft(buf: seq<byte>, start: nat, rs: seq<Region>)
    requires TlsFrom(buf, start, rs) && start < |buf|
    ensures rs != []
  {
  }

  /** The records of a TLS session are its regions. */
  method CutTlsSession(ms: seq<Message>) returns (regions: seq<Region>)
    requires forall m :: m in ms ==> TlsRecord(m)
    ensures Slices(Concat(ms), regions) == ms
  {
    var buf := Concat(ms);
    regions := ExtractRequestsTls(buf);
    assert buf[0..] == buf;
    TlsSession(buf, 0, regions, ms);
  }

  // ----- DICOM -----

  ghost predicate PdusFrom(buf: seq<byte>, start: nat, rs: seq<Region>) {
    Tiles(rs, start, |buf|) && Pdus(buf, rs)
  }

  lemma PduNext(buf: seq<byte>, start: nat, rs: seq<Region>, m: Message)
    requires PdusFrom(buf, start, rs) && start < |buf| < U32
    requires DicomPdu(m) && start + |m| <= |buf| && buf[start..start + |m|] == m
    ensures rs != [] && rs[0].start == start && rs[0].end + 1 == start + |m|
    ensures PdusFrom(buf, rs[0].end + 1, rs[1..])
  {
    var head := buf[start..start + |m|];
    assert forall k :: 2 <= k < 6 ==> head[k] == buf[start + k];
    assert PacketLength(buf, start) == |m|;
    hide PacketLength;
    assert rs[|rs| - 1] == rs[0] || WholePdu(buf, rs[0]);
  }

  lemma {:induction false} DicomSession(buf: seq<byte>, start: nat, rs: seq<Region>, ms: seq<Message>)
    requires start <= |buf| < U32 && buf[start..] == Concat(ms) && forall m :: m in ms ==> DicomPdu(m)
    requires PdusFrom(buf, start, rs)
    ensures Slices(buf, rs) == ms
    decreases |ms|
  {
    hide PdusFrom, DicomPdu;
    if ms == [] {
      NoPduLeft(buf, start, rs);
    } else {
      FirstMessage(buf, start, ms);
      assert ms[0] in ms;
      PduIsLong(ms[0]);
      PduNext(buf, start, rs, ms[0]);
      DicomSession(buf, rs[0].end + 1, rs[1..], ms[1..]);
      FirstSlice(buf, rs);
    }
  }

  lemma NoPduLeft(buf: seq<byte>, start: nat, rs: seq<Region>)
    requires PdusFrom(buf, start, rs) && start == |buf|
    ensures rs == []
  {
  }

  lemma PduIsLong(m: Message)
    requires DicomPdu(m)
    ensures |m| >= 6
  {
  }

  /** The PDUs of a DICOM session are its regions. */
  method CutDicomSession(ms: seq<Message>) returns (regions: seq<Region>)
    requires |Concat(ms)| < U32 && forall m :: m in ms ==> DicomPdu(m)
    ensures Slices(Concat(ms), regions) == ms
  {
    var buf := Concat(ms);
    regions := ExtractRequestsDicom(buf);
    assert buf[0..] == buf;
    DicomSession(buf, 0, regions, ms);
  }

  // ----- DTLS -----

  ghost predicate DtlsFrom(buf: seq<byte>, past: byte, start: nat, rs: seq<Region>) {
    && Tiles(rs, start, |buf|)
    && forall i :: start < i < |buf| ==> (i in Starts(rs) <==> StartsRecord(buf, past, i))
  }

  /** No header starts inside a record. */
  lemma InsideRecord(buf: seq<byte>, past: byte, start: nat, ms: seq<Message>, i: nat)
    requires start <= |buf| && buf[start..] == Concat(ms) && ms != [] && DtlsRecord(ms[0])
    requires |ms| > 1 ==> DtlsRecord(ms[1])
    requires start < i < start + |ms[0]|
    ensures i < |buf| && !RecordHeader(buf, past, i)
  {
    FirstMessage(buf, start, ms);
    var m, k := ms[0], i - start;
    if |ms| > 1 { FirstMessage(buf, start + |m|, ms[1..]); } else { assert Concat(ms[1..]) == []; }
    assert buf[i] == m[k];
    if k + 2 < |m| { assert !DtlsHeader(m, k) && buf[start + (k + 1)] == m[k + 1] && buf[start + (k + 2)] == m[k + 2]; }
    else if k + 1 < |m| { assert buf[start + (k + 1)] == m[k + 1]; }
  }

  /** The next record does start with one. */
  lemma NextRecord(buf: seq<byte>, past: byte, start: nat, ms: seq<Message>)
    requires start <= |buf| && buf[start..] == Concat(ms) && |ms| > 1 && DtlsRecord(ms[0]) && DtlsRecord(ms[1])
    ensures start + |ms[0]| < |buf| && StartsRecord(buf, past, start + |ms[0]|)
  {
    FirstMessage(buf, start, ms);
    var next := start + |ms[0]|;
    FirstMessage(buf, next, ms[1..]);
    assert buf[next + 0] == ms[1][0] && buf[next + 1] == ms[1][1] && buf[next + 2] == ms[1][2];
  }

  lemma StartsOfRest(rs: seq<Region>, from: nat, to: nat)
    requires Tiles(rs, from, to) && rs != []
    ensures forall i :: i in Starts(rs) <==> i == from || i in Starts(rs[1..])
    ensures forall i :: i in Starts(rs[1..]) ==> i > rs[0].end
    ensures |rs| > 1 ==> rs[0].end + 1 in Starts(rs)
  {
    assert rs[0].start == from && Tiles(rs[1..], rs[0].end + 1, to);
    forall i ensures i in Starts(rs) <==> i == from || i in Starts(rs[1..]) {
      if i in Starts(rs) {
        var k :| 0 <= k < |rs| && Starts(rs)[k] == i;
        if k > 0 { assert Starts(rs[1..])[k - 1] == i; }
      }
      if i == from { assert Starts(rs)[0] == i; }
      if i in Starts(rs[1..]) {
        var k :| 0 <= k < |rs| - 1 && Starts(rs[1..])[k] == i;
        assert Starts(rs)[k + 1] == i;
      }
    }
    forall i | i in Starts(rs[1..]) ensures i > rs[0].end {
      var k :| 0 <= k < |rs| - 1 && Starts(rs[1..])[k] == i;
      TilesFrom(rs[1..], k, rs[0].end + 1, to);
    }
    if |rs| > 1 { assert Starts(rs)[1] == rs[0].end + 1; }
  }

  lemma FirstDtlsRegion(buf: seq<byte>, past: byte, start: nat, rs: seq<Region>, ms: seq<Message>)
    requires start < |buf| && buf[start..] == Concat(ms) && ms != [] && forall m :: m in ms ==> DtlsRecord(m)
    requires DtlsFrom(buf, past, start, rs)
    ensures rs != [] && rs[0].start == start && rs[0].end + 1 == start + |ms[0]|
    ensures DtlsFrom(buf, past, rs[0].end + 1, rs[1..])
  {
    hide DtlsRecord, RecordHeader;
    assert rs != [];
    StartsOfRest(rs, start, |buf|);
    TilesBound(rs[1..], rs[0].end + 1, |buf|);
    FirstMessage(buf, start, ms);
    assert ms[0] in ms && (|ms| > 1 ==> ms[1] in ms);
    IsLong(ms[0]);
    var e, next := rs[0].end + 1, start + |ms[0]|;
    if |rs| > 1 {
      assert StartsRecord(buf, past, e);
      if e < next { InsideRecord(buf, past, start, ms, e); }
    }
    if |ms| > 1 {
      NextRecord(buf, past, start, ms);
      assert next in Starts(rs);
    } else {
      assert Concat(ms[1..]) == [];
    }
    if |rs| == 1 { assert e == |buf| && Starts(rs[1..]) == []; }
  }

  lemma {:induction false} DtlsSession(buf: seq<byte>, past: byte, start: nat, rs: seq<Region>, ms: seq<Message>)
    requires start <= |buf| && buf[start..] == Concat(ms) && forall m :: m in ms ==> DtlsRecord(m)
    requires DtlsFrom(buf, past, start, rs)
    ensures Slices(buf, rs) == ms
    decreases |ms|
  {
    hide DtlsRecord, RecordHeader, StartsRecord;
    if ms != [] {
      FirstMessage(buf, start, ms);
      assert |ms[0]| > 0 by { assert ms[0] in ms && DtlsRecord(ms[0]); IsLong(ms[0]); }
      FirstDtlsRegion(buf, past, start, rs, ms);
      DtlsSession(buf, past, rs[0].end + 1, rs[1..], ms[1..]);
      FirstSlice(buf, rs);
    }
  }

  lemma IsLong(m: Message)
    requires DtlsRecord(m)
    ensures |m| >= 4
  {
  }

  /** The records of a DTLS session are its regions. */
  method CutDtlsSession(ms: seq<Message>, past: byte) returns (regions: seq<Region>)
    requires forall m :: m in ms ==> DtlsRecord(m)
    ensures Slices(Concat(ms), regions) == ms
  {
    var buf := Concat(ms);
    regions := ExtractRequestsDtls12(buf, past);
    assert buf[0..] == buf;
    DtlsSession(buf, past, 0, regions, ms);
  }
}
