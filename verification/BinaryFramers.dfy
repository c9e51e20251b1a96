/** The framers that read a length or a header: TLS records, DICOM PDUs, DTLS 1.2 records. */
module BinaryFramers {
  import opened Bytes
  import opened Framers

  // ----- TLS: section 6.2.1 of RFC 5246 -----

  /** The record length in bytes 3 and 4 of a header at `start`. */
  function RecordLength(buf: seq<byte>, start: nat): nat
    requires start + 5 <= |buf|
  {
    256 * (buf[start + 3] as nat) + buf[start + 4]
  }

  /** All regions but the last are whole records, split off because two bytes or more follow. */
  ghost predicate Records(buf: seq<byte>, rs: seq<Region>) {
    forall i :: 0 <= i < |rs| ==>
      rs[i].end + 2 < |buf| && rs[i].start + 5 <= |buf| && rs[i].end == rs[i].start + 4 + RecordLength(buf, rs[i].start)
  }

  /** A last region is a record with at most one byte after it, or less than a record. */
  ghost predicate LastRecord(buf: seq<byte>, start: nat) {
    start < |buf| && (start + 5 < |buf| ==> |buf| <= start + 6 + RecordLength(buf, start))
  }

  /** The skip loop: at most `len` bytes, at most to the end of the buffer. */
  method Skip(byte_count0: nat, cur_end0: nat, len: nat, size: nat) returns (byte_count: nat, cur_end: nat)
    requires byte_count0 <= size
    ensures byte_count == if byte_count0 + len <= size then byte_count0 + len else size
    ensures cur_end == cur_end0 + (byte_count - byte_count0)
  {
    byte_count, cur_end := byte_count0, cur_end0;
    var temp_count := 0;
    while byte_count < size && temp_count < len
      invariant byte_count == byte_count0 + temp_count && cur_end == cur_end0 + temp_count
      invariant byte_count <= size && temp_count <= len
    {
      byte_count := byte_count + 1;
      cur_end := cur_end + 1;
      temp_count := temp_count + 1;
    }
  }

  /** extract_requests_tls.  byte_count need not advance in a round that ends a record. */
  method ExtractRequestsTls(buf: seq<byte>) returns (regions: seq<Region>)
    ensures Tiles(regions, 0, |buf|)
    ensures regions != [] ==> Records(buf, regions[..|regions| - 1]) && LastRecord(buf, regions[|regions| - 1].start)
  {
    hide Tiles, Records, LastRecord;
    NoRecordsYet(buf);
    var byte_count, mem_count: nat := 0, 0;
    var mem: seq<byte> := [];
    regions := [];
    var cur_start: nat, cur_end: nat := 0, 0;
    while byte_count < |buf|
      invariant byte_count < |buf| ==>
                  && cur_end == byte_count == cur_start + mem_count && mem == buf[cur_start..byte_count]
                  && mem_count <= 5 && (byte_count + 1 < |buf| || (|buf| == 1 && regions == []))
                  && Tiles(regions, 0, cur_start) && Records(buf, regions)
      invariant byte_count <= |buf|
      invariant byte_count == |buf| && regions == [] ==> |buf| <= 1
      invariant byte_count == |buf| && regions != [] ==>
                  Tiles(regions, 0, |buf|) && Records(buf, regions[..|regions| - 1]) &&
                    LastRecord(buf, regions[|regions| - 1].start)
      decreases |buf| - byte_count, |buf| - cur_start
    {
      mem := mem + [buf[byte_count]];
      byte_count := byte_count + 1;
      if mem_count >= 5 {
        var bytes_to_skip := 256 * (mem[3] as nat) + mem[4];
        byte_count, cur_end := Skip(byte_count, cur_end, bytes_to_skip, |buf|);
        if byte_count < |buf| {
          byte_count := byte_count - 1;
          cur_end := cur_end - 1;
        }
        if cur_end < |buf| - 1 {
          OneMoreRecord(buf, regions, cur_start, cur_end);
        } else {
          FinalRecord(buf, regions, cur_start);
        }
        regions := AddRegion(regions, cur_start, cur_end);
        if cur_end < |buf| - 1 {
          mem_count := 0;
          mem := [];
          cur_start := cur_end + 1;
          cur_end := cur_start;
        }
      } else {
        mem_count := mem_count + 1;
        cur_end := cur_end + 1;
        if cur_end == |buf| - 1 {
          FinalRecord(buf, regions, cur_start);
          regions := AddRegion(regions, cur_start, cur_end);
          break;
        }
      }
    }
    if |regions| == 0 && |buf| > 0 {
      FinalRecord(buf, [], 0);
      regions := AddRegion([], 0, |buf| - 1);
    }
  }

  lemma NoRecordsYet(buf: seq<byte>)
    ensures Tiles([], 0, 0) && Records(buf, [])
  {
  }

  lemma OneMoreRecord(buf: seq<byte>, rs: seq<Region>, start: nat, end: nat)
    requires Records(buf, rs) && start + 5 <= |buf| && end == start + 4 + RecordLength(buf, start) && end + 2 < |buf|
    ensures Records(buf, rs + [Region(start, end)])
  {
  }

  lemma FinalRecord(buf: seq<byte>, rs: seq<Region>, start: nat)
    requires Records(buf, rs) && start < |buf|
    requires start + 6 < |buf| ==> |buf| <= start + 6 + RecordLength(buf, start)
    ensures var r := rs + [Region(start, |buf| - 1)];
            Records(buf, r[..|r| - 1]) && LastRecord(buf, r[|r| - 1].start)
  {
    var r := rs + [Region(start, |buf| - 1)];
    assert r[..|r| - 1] == rs;
  }

  // ----- DICOM: section 9.3 of DICOM PS3.8 -----

  const U32: nat := 0x1_0000_0000

  /** Six bytes of header and the big-endian PDU length in bytes 2 to 5, on 32 bits. */
  function PacketLength(buf: seq<byte>, start: nat): nat
    requires start + 5 < |buf|
  {
    (0x100_0000 * (buf[start + 2] as nat) + 0x1_0000 * (buf[start + 3] as nat) +
     0x100 * (buf[start + 4] as nat) + buf[start + 5] + 6) % U32
  }

  /** A whole PDU: its length, wrapped to 32 bits or not, stays inside the buffer. */
  ghost predicate WholePdu(buf: seq<byte>, r: Region) {
    && r.start + 5 < |buf| && r.end < |buf|
    && Len(r) == PacketLength(buf, r.start) > 0
  }

  /** No whole PDU starts here. */
  ghost predicate NoWholePdu(buf: seq<byte>, start: nat) {
    start + 5 < |buf| ==> PacketLength(buf, start) == 0 || start + PacketLength(buf, start) > |buf|
  }

  /** Whole PDUs, and at most one further region for what does not hold one. */
  ghost predicate Pdus(buf: seq<byte>, rs: seq<Region>) {
    && (forall i :: 0 <= i < |rs| - 1 ==> WholePdu(buf, rs[i]))
    && (rs != [] ==>
          var last := rs[|rs| - 1];
          WholePdu(buf, last) || (last.end == |buf| - 1 && NoWholePdu(buf, last.start)))
  }

  /** extract_requests_dicom, on 32-bit arithmetic: `end` and the two sums may wrap. */
  method ExtractRequestsDicom(buf: seq<byte>) returns (regions: seq<Region>)
    requires |buf| < U32
    ensures Tiles(regions, 0, |buf|) && Pdus(buf, regions)
  {
    hide Tiles, PacketLength;
    NothingTiled();
    regions := [];
    var byte_count: nat := 0;
    while byte_count < |buf|
      invariant byte_count <= |buf| && Tiles(regions, 0, byte_count)
      invariant forall i :: 0 <= i < |regions| ==> WholePdu(buf, regions[i])
      decreases |buf| - byte_count
    {
      if byte_count + 2 >= |buf| || byte_count + 5 >= |buf| {
        break;
      }
      var packet_length := PduLengthField(buf, byte_count);
      var start := byte_count;
      var end := (byte_count + packet_length + U32 - 1) % U32;
      EndOfPacket(byte_count, packet_length, |buf|);
      if end < start {
        break;
      }
      if end >= |buf| {
        break;
      }
      regions := AddRegion(regions, start, end);
      if (byte_count + packet_length) % U32 < byte_count {
        break;
      }
      if (byte_count + packet_length) % U32 < packet_length {
        break;
      }
      byte_count := byte_count + packet_length;
    }
    if byte_count < |buf| {
      regions := AddRegion(regions, byte_count, |buf| - 1);
    }
  }

  lemma NothingTiled()
    ensures Tiles([], 0, 0)
  {
  }

  method PduLengthField(buf: seq<byte>, byte_count: nat) returns (packet_length: nat)
    requires byte_count + 5 < |buf|
    ensures packet_length == PacketLength(buf, byte_count) && packet_length < U32
  {
    var pdu_length := (buf[byte_count + 5] as nat) + (buf[byte_count + 4] as nat) * 0x100 +
                      (buf[byte_count + 3] as nat) * 0x1_0000 + (buf[byte_count + 2] as nat) * 0x100_0000;
    packet_length := (pdu_length + 6) % U32;
  }

  /** What the wrapped `end` means: the two tests after it pass exactly for a non-empty packet
      inside the buffer, and then the later sums do not wrap. */
  lemma EndOfPacket(start: nat, packet_length: nat, size: nat)
    requires start < size < U32 && packet_length < U32
    ensures var end := (start + packet_length + U32 - 1) % U32;
            && (start <= end < size <==> packet_length > 0 && start + packet_length <= size)
            && (start <= end < size ==>
                end == start + packet_length - 1 && (start + packet_length) % U32 == start + packet_length)
  {
  }

  // ----- DTLS 1.2: section 4.1 of RFC 6347 -----

  const CCS_CONTENT_TYPE: byte := 0x14
  const HEARTBEAT_CONTENT_TYPE: byte := 0x18

  /** A content type and the version FE FD.  With one byte missing the original compares the
      byte one past the buffer, here `past`. */
  predicate RecordHeader(buf: seq<byte>, past: byte, i: nat)
    requires i < |buf|
  {
    && |buf| - i > 1
    && CCS_CONTENT_TYPE <= buf[i] <= HEARTBEAT_CONTENT_TYPE
    && buf[i + 1] == 0xFE && (if i + 2 < |buf| then buf[i + 2] else past) == 0xFD
  }

  predicate StartsRecord(buf: seq<byte>, past: byte, i: nat)
    requires i < |buf|
  {
    i > 3 && RecordHeader(buf, past, i)
  }

  /** Up to `upto`, a region starts at 0 and wherever a header is found, and nowhere else. */
  ghost predicate CutAtHeaders(buf: seq<byte>, past: byte, starts: seq<nat>, upto: nat)
    requires upto <= |buf|
  {
    forall i :: 0 <= i < upto ==> (i in starts <==> i == 0 || StartsRecord(buf, past, i))
  }

  function Starts(rs: seq<Region>): seq<nat> {
    seq(|rs|, i requires 0 <= i < |rs| => rs[i].start)
  }

  /** extract_requests_dtls12. */
  method ExtractRequestsDtls12(buf: seq<byte>, past: byte) returns (regions: seq<Region>)
    ensures Tiles(regions, 0, |buf|)
    ensures CutAtHeaders(buf, past, Starts(regions), |buf|)
  {
    hide Tiles, RecordHeader;
    NothingTiled();
    regions := [];
    var byte_count: nat, cur_start: nat := 0, 0;
    while byte_count < |buf|
      invariant cur_start <= byte_count <= |buf| && Tiles(regions, 0, cur_start)
      invariant byte_count > 0 ==> cur_start < byte_count
      invariant CutAtHeaders(buf, past, Starts(regions) + [cur_start], byte_count)
      invariant forall x :: x in Starts(regions) ==> x < byte_count
      invariant byte_count == |buf| ==> buf == []
      decreases |buf| - byte_count
    {
      LastByteStartsNothing(buf, past, byte_count);
      if byte_count > 3 && RecordHeader(buf, past, byte_count) {
        StartsMore(regions, Region(cur_start, byte_count - 1));
        regions := AddRegion(regions, cur_start, byte_count - 1);
        cur_start := byte_count;
      } else {
        if byte_count == |buf| - 1 {
          StartsMore(regions, Region(cur_start, byte_count));
          regions := AddRegion(regions, cur_start, byte_count);
          break;
        }
      }
      byte_count := byte_count + 1;
    }
    // A non-empty buffer has a region by now: the original's fallback never applies here.
  }

  lemma LastByteStartsNothing(buf: seq<byte>, past: byte, i: nat)
    requires i < |buf|
    ensures RecordHeader(buf, past, i) ==> i < |buf| - 1
  {
  }

  lemma StartsMore(rs: seq<Region>, r: Region)
    ensures Starts(rs + [r]) == Starts(rs) + [r.start]
  {
  }
}
