/** The evidence log of src/EvidenceManager.cc: packets copied into a buffer of fixed size,
    one capture file after the other. */
module Evidence {
  import opened Common
  import opened PcapFormat

  const INT_MAX := 0x7FFF_FFFF

  /** memcpy into the mapped file; every byte has to lie inside it. */
  method Copy(data: array<byte>, at: nat, bytes: seq<byte>)
    requires at + |bytes| <= data.Length
    modifies data
    ensures data[..at] == old(data[..at])
    ensures data[..at + |bytes|] == old(data[..at]) + bytes
  {
    for i := 0 to |bytes|
      invariant data[..at] == old(data[..at])
      invariant forall k :: 0 <= k < i ==> data[at + k] == bytes[k]
    {
      data[at + i] := bytes[i];
    }
  }

  function Flatten(logs: seq<seq<Packet>>): seq<Packet> {
    if logs == [] then [] else Flatten(logs[..|logs| - 1]) + logs[|logs| - 1]
  }

  class EvidenceManager {
    const bigEndian: bool
    const totalSize: nat
    var isOpen: bool
    var data: array<byte>
    var offset: nat
    var totalFiles: nat
    var totalWritePackets: nat
    var closedFiles: seq<seq<byte>>   // the files on disk, cut to their length

    // the packets of the open file and of the closed ones
    ghost var current: seq<Packet>
    ghost var past: seq<seq<Packet>>

    ghost predicate Valid()
      reads this, data
    {
      && FILE_HEADER_SIZE <= totalSize <= INT_MAX
      && (isOpen ==>
            data.Length == totalSize && offset <= totalSize && AllFit(current) &&
            data[..offset] == File(current, bigEndian))
      && (!isOpen ==> offset == 0 && current == [])
      && Kept()
      && totalFiles == |closedFiles| + (if isOpen then 1 else 0)
      && totalWritePackets == |Log()|
    }

    /** Each closed file is whole. */
    ghost predicate Kept()
      reads this`past, this`closedFiles
    {
      && |past| == |closedFiles|
      && forall i :: 0 <= i < |past| ==> AllFit(past[i]) && closedFiles[i] == File(past[i], bigEndian)
    }

    /** Everything written so far, in order. */
    ghost function Log(): seq<Packet>
      reads this`current, this`past
    {
      Flatten(past) + current
    }

    /** What a reader finds on disk once the open file is cut to its length. */
    function Files(): seq<seq<byte>>
      reads this, data
      requires isOpen ==> offset <= data.Length
    {
      if isOpen then closedFiles + [data[..offset]] else closedFiles
    }

    constructor (size: nat, bigEndian: bool)
      requires FILE_HEADER_SIZE <= size <= INT_MAX
      ensures Valid() && !isOpen && Log() == [] && totalSize == size && closedFiles == [] && fresh(data)
    {
      totalSize, this.bigEndian := size, bigEndian;
      isOpen, offset, totalFiles, totalWritePackets := false, 0, 0, 0;
      data := new byte[0];
      closedFiles, current, past := [], [], [];
    }

    /** Opens a new file and writes its header; nothing happens if a file is open. */
    method Enable()
      requires Valid()
      modifies this
      ensures Valid() && isOpen && Log() == old(Log()) && closedFiles == old(closedFiles)
      ensures old(isOpen) ==> data == old(data) && offset == old(offset) && current == old(current) && past == old(past)
      ensures !old(isOpen) ==> offset == FILE_HEADER_SIZE && current == [] && past == old(past) && fresh(data)
      ensures totalWritePackets == old(totalWritePackets)
    {
      if !isOpen {
        var file := new byte[totalSize](_ => 0);
        var header := FileHeader(bigEndian);
        Copy(file, 0, header);
        isOpen, data, offset := true, file, FILE_HEADER_SIZE;
        totalFiles := totalFiles + 1;
        assert data[..offset] == header == File([], bigEndian);
      }
    }

    /** Closes the file and cuts it to the bytes written. */
    method Disable()
      requires Valid()
      modifies this
      ensures Valid() && !isOpen && Log() == old(Log())
      ensures closedFiles == old(Files()) && data == old(data)
      ensures totalFiles == old(totalFiles) && totalWritePackets == old(totalWritePackets)
    {
      if isOpen {
        closedFiles := closedFiles + [data[..offset]];
        isOpen, offset := false, 0;
        assert (past + [current])[..|past|] == past;
        past, current := past + [current], [];
      }
    }

    /** Appends one record; a new file is begun exactly when the record would not fit into the open one. */
    method Write(packet: Packet)
      requires Valid() && isOpen
      requires FILE_HEADER_SIZE + RECORD_HEADER_SIZE + |packet| <= totalSize
      requires offset + |packet| <= INT_MAX
      modifies this, data
      ensures Valid() && isOpen && Log() == old(Log()) + [packet]
      ensures totalWritePackets == old(totalWritePackets) + 1
      ensures old(offset) + RECORD_HEADER_SIZE + |packet| <= totalSize ==>
        closedFiles == old(closedFiles) && current == old(current) + [packet]
      ensures old(offset) + RECORD_HEADER_SIZE + |packet| > totalSize ==>
        closedFiles == old(Files()) && current == [packet]
    {
      hide Kept, File, Flatten;
      if offset + |packet| + RECORD_HEADER_SIZE > totalSize {
        RollOver();
      }
      WriteRecord(packet);
    }

    /** The open file is closed, and the next one begun. */
    method RollOver()
      requires Valid() && isOpen
      modifies this
      ensures Valid() && isOpen && Log() == old(Log()) && closedFiles == old(Files())
      ensures fresh(data) && offset == FILE_HEADER_SIZE && current == []
      ensures totalWritePackets == old(totalWritePackets)
    {
      hide Kept, File, Flatten;
      Disable();
      Enable();
    }

    /** Header and payload of one record, copied behind the last one. */
    method WriteRecord(packet: Packet)
      requires Valid() && isOpen && offset + RECORD_HEADER_SIZE + |packet| <= totalSize
      modifies this`offset, this`totalWritePackets, this`current, data
      ensures Valid() && offset == old(offset) + RECORD_HEADER_SIZE + |packet|
      ensures current == old(current) + [packet]
      ensures totalWritePackets == old(totalWritePackets) + 1
    {
      hide File, RecordHeader;
      FileAppend(current, packet, bigEndian);
      var header := RecordHeader(|packet|, bigEndian);
      Copy(data, offset, header);
      offset := offset + RECORD_HEADER_SIZE;
      Copy(data, offset, packet);
      offset := offset + |packet|;
      totalWritePackets := totalWritePackets + 1;
      current := current + [packet];
    }

    /** At any moment a reader run over the files in order finds exactly the packets written, in order. */
    lemma ReaderFindsLog()
      requires Valid()
      ensures ReadFiles(Files()) == Some(Log())
    {
      hide ReadFile, File;
      ClosedFilesRead(|past|);
      assert closedFiles[..|past|] == closedFiles && past[..|past|] == past;
      if isOpen {
        FileRoundTrip(current, bigEndian);
        OneMoreFile(closedFiles, data[..offset]);
      } else {
        assert Log() == Flatten(past);
      }
    }

    /** Every file has the same header, and one stamp without times for each of its packets. */
    lemma FieldsFound(i: nat)
      requires Valid() && i < |Files()|
      ensures |Files()[i]| >= 24 && GetHeader(Files()[i], bigEndian) == Header(2, 4, 0, 0, 1500, 1)
      ensures ReadStamps(Files()[i][24..], bigEndian) == Some(Stamps(if i < |past| then past[i] else current))
    {
      hide GetHeader, ReadStamps, File;
      FileFieldsRoundTrip(if i < |past| then past[i] else current, bigEndian);
    }

    static lemma OneMoreFile(files: seq<seq<byte>>, last: seq<byte>)
      ensures ReadFiles(files + [last]) ==
        match (ReadFiles(files), ReadFile(last))
        case (Some(before), Some(packets)) => Some(before + packets)
        case _ => None
    {
      hide ReadFile;
      assert (files + [last])[..|files|] == files;
    }

    lemma {:induction false} ClosedFilesRead(n: nat)
      requires Kept() && n <= |past|
      ensures ReadFiles(closedFiles[..n]) == Some(Flatten(past[..n]))
    {
      hide ReadFile, File;
      if n > 0 {
        ClosedFilesRead(n - 1);
        FileRoundTrip(past[n - 1], bigEndian);
        assert closedFiles[..n][..n - 1] == closedFiles[..n - 1];
        assert past[..n][..n - 1] == past[..n - 1];
      }
    }
  }
}
