/** The capture file format of draft-ietf-opsawg-pcap: section 4 (File Header) and section 5 (Packet Record),
    as src/EvidenceManager.cc writes it in the byte order of the host, and a reader for it. */
module PcapFormat {
  import opened Common

  type Packet = seq<byte>

  const MAGIC := 0xA1B2C3D4
  const FILE_HEADER_SIZE := 24
  const RECORD_HEADER_SIZE := 16

  // ---------------------------------------------------------------- writing

  function U16(v: nat, big: bool): (r: seq<byte>)
    requires v < 0x1_0000
    ensures |r| == 2
  {
    if big then [v / 0x100, v % 0x100] else [v % 0x100, v / 0x100]
  }

  function U32(v: nat, big: bool): (r: seq<byte>)
    requires v < 0x1_0000_0000
    ensures |r| == 4
  {
    if big then U16(v / 0x1_0000, big) + U16(v % 0x1_0000, big)
    else U16(v % 0x1_0000, big) + U16(v / 0x1_0000, big)
  }

  function FileHeader(big: bool): (r: seq<byte>)
    ensures |r| == FILE_HEADER_SIZE
  {
    U32(MAGIC, big) + (U16(2, big) + (U16(4, big) + (U32(0, big) + (U32(0, big) + (U32(1500, big) + U32(1, big))))))
  }

  predicate Fits(p: Packet) {
    |p| < 0x1_0000_0000
  }

  predicate AllFit(packets: seq<Packet>) {
    forall i :: 0 <= i < |packets| ==> Fits(packets[i])
  }

  function RecordHeader(length: nat, big: bool): (r: seq<byte>)
    requires length < 0x1_0000_0000
    ensures |r| == RECORD_HEADER_SIZE
  {
    U32(0, big) + (U32(0, big) + (U32(length, big) + U32(length, big)))
  }

  function Records(packets: seq<Packet>, big: bool): seq<byte>
    requires AllFit(packets)
  {
    if packets == [] then []
    else RecordHeader(|packets[0]|, big) + packets[0] + Records(packets[1..], big)
  }

  function File(packets: seq<Packet>, big: bool): seq<byte>
    requires AllFit(packets)
  {
    FileHeader(big) + Records(packets, big)
  }

  // ---------------------------------------------------------------- reading

  function Get16(bytes: seq<byte>, i: nat, big: bool): nat
    requires i + 2 <= |bytes|
  {
    var first: int, second: int := bytes[i], bytes[i + 1];
    if big then first * 0x100 + second else first + second * 0x100
  }

  function Get32(bytes: seq<byte>, i: nat, big: bool): nat
    requires i + 4 <= |bytes|
  {
    if big then Get16(bytes, i, big) * 0x1_0000 + Get16(bytes, i + 2, big)
    else Get16(bytes, i, big) + Get16(bytes, i + 2, big) * 0x1_0000
  }

  /** Packets until the end of the bytes; none if a record is cut short. */
  function ReadRecords(bytes: seq<byte>, big: bool): Option<seq<Packet>>
    decreases |bytes|
  {
    if bytes == [] then Some([])
    else if |bytes| < RECORD_HEADER_SIZE then None
    else
      var captured := Get32(bytes, 8, big);
      if RECORD_HEADER_SIZE + captured > |bytes| then None
      else
        match ReadRecords(bytes[RECORD_HEADER_SIZE + captured..], big)
        case None => None
        case Some(rest) => Some([bytes[RECORD_HEADER_SIZE..RECORD_HEADER_SIZE + captured]] + rest)
  }

  /** What a file header says, and what a record header says. */
  datatype Header = Header(major: nat, minor: nat, zone: nat, accuracy: nat, snapshot: nat, link: nat)
  datatype Stamp = Stamp(seconds: nat, fraction: nat, captured: nat, original: nat)

  function GetHeader(bytes: seq<byte>, big: bool): Header
    requires |bytes| >= 24
  {
    Header(Get16(bytes, 4, big), Get16(bytes, 6, big), Get32(bytes, 8, big), Get32(bytes, 12, big),
           Get32(bytes, 16, big), Get32(bytes, 20, big))
  }

  function GetStamp(bytes: seq<byte>, big: bool): Stamp
    requires |bytes| >= 16
  {
    Stamp(Get32(bytes, 0, big), Get32(bytes, 4, big), Get32(bytes, 8, big), Get32(bytes, 12, big))
  }

  /** The record headers, one after the other. */
  function ReadStamps(bytes: seq<byte>, big: bool): Option<seq<Stamp>>
    decreases |bytes|
  {
    if bytes == [] then Some([])
    else if |bytes| < RECORD_HEADER_SIZE then None
    else
      var stamp := GetStamp(bytes, big);
      if RECORD_HEADER_SIZE + stamp.captured > |bytes| then None
      else
        match ReadStamps(bytes[RECORD_HEADER_SIZE + stamp.captured..], big)
        case None => None
        case Some(rest) => Some([stamp] + rest)
  }

  /** A reader learns the byte order from the magic number. */
  function ReadFile(bytes: seq<byte>): Option<seq<Packet>> {
    if |bytes| < FILE_HEADER_SIZE then None
    else if Get32(bytes, 0, false) == MAGIC then ReadBody(bytes, false)
    else if Get32(bytes, 0, true) == MAGIC then ReadBody(bytes, true)
    else None
  }

  function ReadBody(bytes: seq<byte>, big: bool): Option<seq<Packet>>
    requires |bytes| >= FILE_HEADER_SIZE
  {
    if Get16(bytes, 4, big) == 2 && Get16(bytes, 6, big) == 4 then ReadRecords(bytes[FILE_HEADER_SIZE..], big) else None
  }

  /** Several files read one after the other. */
  function ReadFiles(files: seq<seq<byte>>): Option<seq<Packet>> {
    if files == [] then Some([])
    else
      match (ReadFiles(files[..|files| - 1]), ReadFile(files[|files| - 1]))
      case (Some(before), Some(last)) => Some(before + last)
      case _ => None
  }

  // ---------------------------------------------------------------- round trips

  lemma Get16OfU16(v: nat, big: bool, before: seq<byte>, after: seq<byte>)
    requires v < 0x1_0000
    ensures var bytes := before + U16(v, big) + after;
      Get16(bytes, |before|, big) == v
  {
    var bytes := before + U16(v, big) + after;
    assert bytes[|before|] == U16(v, big)[0] && bytes[|before| + 1] == U16(v, big)[1];
  }

  lemma Get32OfU32(v: nat, big: bool, before: seq<byte>, after: seq<byte>)
    requires v < 0x1_0000_0000
    ensures var bytes := before + U32(v, big) + after;
      Get32(bytes, |before|, big) == v
  {
    var hi, lo := v / 0x1_0000, v % 0x1_0000;
    var first, second := if big then hi else lo, if big then lo else hi;
    var bytes := before + U32(v, big) + after;
    Get16OfU16(first, big, before, U16(second, big) + after);
    Get16OfU16(second, big, before + U16(first, big), after);
    assert bytes == before + U16(first, big) + (U16(second, big) + after);
    assert bytes == before + U16(first, big) + U16(second, big) + after;
  }

  /** The captured length is at offset 8 of a record. */
  lemma CapturedLength(length: nat, big: bool, after: seq<byte>)
    requires length < 0x1_0000_0000
    ensures Get32(RecordHeader(length, big) + after, 8, big) == length
  {
    var before := U32(0, big) + U32(0, big);
    Get32OfU32(length, big, before, U32(length, big) + after);
    assert RecordHeader(length, big) + after == before + U32(length, big) + (U32(length, big) + after);
  }

  /** Reading one record off the front. */
  lemma ReadStep(p: Packet, rest: seq<byte>, big: bool)
    requires Fits(p)
    ensures ReadRecords(RecordHeader(|p|, big) + p + rest, big) ==
            match ReadRecords(rest, big)
            case None => None
            case Some(packets) => Some([p] + packets)
  {
    hide RecordHeader, Get32;
    var header := RecordHeader(|p|, big);
    var bytes := header + p + rest;
    CapturedLength(|p|, big, p + rest);
    assert bytes == header + (p + rest);
    assert bytes[RECORD_HEADER_SIZE..RECORD_HEADER_SIZE + |p|] == p;
    assert bytes[RECORD_HEADER_SIZE + |p|..] == rest;
  }

  lemma {:induction false} RecordsRoundTrip(packets: seq<Packet>, big: bool)
    requires AllFit(packets)
    ensures ReadRecords(Records(packets, big), big) == Some(packets)
  {
    hide ReadRecords, RecordHeader, Records;
    if packets == [] {
      ReadNothing(big);
    } else {
      var first, rest := packets[0], packets[1..];
      RecordsRoundTrip(rest, big);
      RecordsCons(first, rest, big);
      ReadStep(first, Records(rest, big), big);
      assert packets == [first] + rest;
    }
  }

  lemma ReadNothing(big: bool)
    ensures Records([], big) == [] && ReadRecords([], big) == Some([])
  {
  }

  /** The magic number, read in the other byte order, is another number. */
  lemma MagicReversed(bytes: seq<byte>, big: bool)
    requires |bytes| >= 4 && Get32(bytes, 0, big) == MAGIC
    ensures Get32(bytes, 0, !big) != MAGIC
  {
    var first, second := Get16(bytes, 0, big), Get16(bytes, 2, big);
    if big {
      assert first == 0xA1B2 && second == 0xC3D4;
      assert Get16(bytes, 2, false) == 0xD4C3;
    } else {
      assert second == 0xA1B2 && first == 0xC3D4;
      assert Get16(bytes, 0, true) == 0xD4C3;
    }
  }

  /** The magic number tells the byte orders apart. */
  lemma HeaderIsRecognized(big: bool, after: seq<byte>)
    ensures var bytes := FileHeader(big) + after;
      && Get32(bytes, 0, big) == MAGIC && Get32(bytes, 0, !big) != MAGIC
      && Get16(bytes, 4, big) == 2 && Get16(bytes, 6, big) == 4
  {
    hide U16, U32, Get16, Get32;
    var bytes := FileHeader(big) + after;
    var magic, major, minor := U32(MAGIC, big), U16(2, big), U16(4, big);
    var rest := U32(0, big) + (U32(0, big) + (U32(1500, big) + U32(1, big))) + after;
    Get32OfU32(MAGIC, big, [], major + minor + rest);
    Get16OfU16(2, big, magic, minor + rest);
    Get16OfU16(4, big, magic + major, rest);
    assert bytes == [] + magic + (major + minor + rest);
    assert bytes == magic + major + (minor + rest);
    assert bytes == magic + major + minor + rest;
    MagicReversed(bytes, big);
  }

  /** Reading a written file gives its packets, in either byte order. */
  lemma FileRoundTrip(packets: seq<Packet>, big: bool)
    requires AllFit(packets)
    ensures ReadFile(File(packets, big)) == Some(packets)
  {
    var bytes := File(packets, big);
    HeaderIsRecognized(big, Records(packets, big));
    RecordsRoundTrip(packets, big);
    assert bytes[FILE_HEADER_SIZE..] == Records(packets, big);
  }

  lemma RecordsCons(p: Packet, rest: seq<Packet>, big: bool)
    requires Fits(p) && AllFit(rest)
    ensures AllFit([p] + rest)
    ensures Records([p] + rest, big) == RecordHeader(|p|, big) + p + Records(rest, big)
  {
    assert ([p] + rest)[1..] == rest;
  }

  /** Byte for byte, in both orders: version 2.4, no zone, no accuracy, packets of up to 1500 bytes, ethernet. */
  lemma HeaderBytes()
    ensures FileHeader(true) ==
            [0xA1, 0xB2, 0xC3, 0xD4, 0, 2, 0, 4, 0, 0, 0, 0, 0, 0, 0, 0, 0, 0, 0x05, 0xDC, 0, 0, 0, 1]
    ensures FileHeader(false) ==
            [0xD4, 0xC3, 0xB2, 0xA1, 2, 0, 4, 0, 0, 0, 0, 0, 0, 0, 0, 0, 0xDC, 0x05, 0, 0, 1, 0, 0, 0]
  {
    hide U16, U32, Front, Back, FileHeader;
    FrontBytes();
    BackBytes();
    FrontAndBack(true);
    FrontAndBack(false);
  }

  function Front(big: bool): seq<byte> {
    U32(MAGIC, big) + U16(2, big) + U16(4, big)
  }

  function Back(big: bool): seq<byte> {
    U32(0, big) + U32(0, big) + U32(1500, big) + U32(1, big)
  }

  lemma FrontAndBack(big: bool)
    ensures FileHeader(big) == Front(big) + Back(big)
  {
    hide U16, U32;
  }

  lemma FrontBytes()
    ensures Front(true) == [0xA1, 0xB2, 0xC3, 0xD4, 0, 2, 0, 4] && Front(false) == [0xD4, 0xC3, 0xB2, 0xA1, 2, 0, 4, 0]
  {
    hide U16, U32;
    WordBytes();
    HalfBytes();
  }

  lemma BackBytes()
    ensures Back(true) == [0, 0, 0, 0, 0, 0, 0, 0, 0, 0, 0x05, 0xDC, 0, 0, 0, 1]
    ensures Back(false) == [0, 0, 0, 0, 0, 0, 0, 0, 0xDC, 0x05, 0, 0, 1, 0, 0, 0]
  {
    hide U16, U32;
    WordBytes();
  }

  lemma WordBytes()
    ensures U32(0, true) == [0, 0, 0, 0] == U32(0, false)
    ensures U32(1, true) == [0, 0, 0, 1] && U32(1, false) == [1, 0, 0, 0]
    ensures U32(1500, true) == [0, 0, 0x05, 0xDC] && U32(1500, false) == [0xDC, 0x05, 0, 0]
    ensures U32(MAGIC, true) == [0xA1, 0xB2, 0xC3, 0xD4] && U32(MAGIC, false) == [0xD4, 0xC3, 0xB2, 0xA1]
  {
  }

  lemma HalfBytes()
    ensures U16(2, true) == [0, 2] && U16(2, false) == [2, 0]
    ensures U16(4, true) == [0, 4] && U16(4, false) == [4, 0]
  {
  }

  lemma HeaderFields(big: bool, after: seq<byte>)
    ensures GetHeader(FileHeader(big) + after, big) == Header(2, 4, 0, 0, 1500, 1)
  {
    HeaderBytes();
    var bytes := FileHeader(big) + after;
    assert forall i :: 0 <= i < 24 ==> bytes[i] == FileHeader(big)[i];
  }

  /** Both times are zero, and both lengths are that of the packet. */
  lemma StampFields(length: nat, big: bool, after: seq<byte>)
    requires length < 0x1_0000_0000
    ensures GetStamp(RecordHeader(length, big) + after, big) == Stamp(0, 0, length, length)
  {
    hide U32, Get32;
    var zero, size := U32(0, big), U32(length, big);
    var bytes := RecordHeader(length, big) + after;
    Get32OfU32(0, big, [], zero + size + size + after);
    Get32OfU32(0, big, zero, size + size + after);
    Get32OfU32(length, big, zero + zero, size + after);
    Get32OfU32(length, big, zero + zero + size, after);
    assert bytes == [] + zero + (zero + size + size + after);
    assert bytes == zero + zero + (size + size + after);
    assert bytes == zero + zero + size + (size + after);
    assert bytes == zero + zero + size + size + after;
  }

  /** One stamp for each packet, without times and with its length twice. */
  function Stamps(packets: seq<Packet>): seq<Stamp> {
    if packets == [] then [] else [Stamp(0, 0, |packets[0]|, |packets[0]|)] + Stamps(packets[1..])
  }

  lemma StampStep(p: Packet, rest: seq<byte>, big: bool)
    requires Fits(p)
    ensures ReadStamps(RecordHeader(|p|, big) + p + rest, big) ==
            match ReadStamps(rest, big)
            case None => None
            case Some(stamps) => Some([Stamp(0, 0, |p|, |p|)] + stamps)
  {
    hide RecordHeader, GetStamp;
    var header := RecordHeader(|p|, big);
    var bytes := header + p + rest;
    StampFields(|p|, big, p + rest);
    assert bytes == header + (p + rest);
    assert bytes[RECORD_HEADER_SIZE + |p|..] == rest;
  }

  lemma {:induction false} StampsRoundTrip(packets: seq<Packet>, big: bool)
    requires AllFit(packets)
    ensures ReadStamps(Records(packets, big), big) == Some(Stamps(packets))
  {
    hide RecordHeader, Records, ReadStamps;
    if packets == [] {
      NoStamps(big);
    } else {
      var first, rest := packets[0], packets[1..];
      StampsRoundTrip(rest, big);
      RecordsCons(first, rest, big);
      StampStep(first, Records(rest, big), big);
      assert packets == [first] + rest;
    }
  }

  /** What a reader of a whole file learns besides the packets. */
  lemma FileFieldsRoundTrip(packets: seq<Packet>, big: bool)
    requires AllFit(packets)
    ensures |File(packets, big)| >= 24 && GetHeader(File(packets, big), big) == Header(2, 4, 0, 0, 1500, 1)
    ensures ReadStamps(File(packets, big)[24..], big) == Some(Stamps(packets))
  {
    hide GetHeader, ReadStamps, Records, FileHeader;
    HeaderFields(big, Records(packets, big));
    StampsRoundTrip(packets, big);
    assert File(packets, big)[24..] == Records(packets, big);
  }

  lemma NoStamps(big: bool)
    ensures Records([], big) == [] && ReadStamps([], big) == Some([])
  {
  }

  lemma {:induction false} RecordsAppend(packets: seq<Packet>, p: Packet, big: bool)
    requires AllFit(packets) && Fits(p)
    ensures AllFit(packets + [p])
    ensures Records(packets + [p], big) == Records(packets, big) + (RecordHeader(|p|, big) + p)
  {
    hide Records, RecordHeader;
    var record := RecordHeader(|p|, big) + p;
    if packets == [] {
      RecordsCons(p, [], big);
      ReadNothing(big);
      assert packets + [p] == [p] + [];
      assert record + [] == [] + record;
    } else {
      var first, rest := packets[0], packets[1..];
      var head := RecordHeader(|first|, big) + first;
      RecordsAppend(rest, p, big);
      RecordsCons(first, rest, big);
      RecordsCons(first, rest + [p], big);
      assert packets == [first] + rest && packets + [p] == [first] + (rest + [p]);
      assert head + (Records(rest, big) + record) == head + Records(rest, big) + record;
    }
  }

  /** A file grows by the bytes of the record. */
  lemma FileAppend(packets: seq<Packet>, p: Packet, big: bool)
    requires AllFit(packets) && Fits(p)
    ensures AllFit(packets + [p])
    ensures File(packets + [p], big) == File(packets, big) + RecordHeader(|p|, big) + p
  {
    hide RecordHeader, FileHeader, Records;
    RecordsAppend(packets, p, big);
    var header, records, tail := FileHeader(big), Records(packets, big), RecordHeader(|p|, big);
    assert header + (records + (tail + p)) == header + records + tail + p;
  }
}
