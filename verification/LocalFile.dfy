/** The LocalFile strategy: one shared content file, and the instances that write to it and poll it. */
module LocalFile {
  import opened Words
  import opened LocalFileLog

  /** The content file: last record id, index and records, overwritten in place. */
  class ContentFile {
    var lastRecordId: uint16
    const index: array<uint16>
    const records: array<Record>

    ghost predicate Valid()
      reads this
    {
      1 <= index.Length <= NOT_ASSIGNED && records.Length == index.Length
    }

    ghost function Value(): (f: File)
      reads this, index, records
      ensures Valid() ==> |f.index| == |f.records| == index.Length
    {
      File(lastRecordId, index[..], records[..])
    }

    constructor (n: nat)
      requires 1 <= n <= NOT_ASSIGNED
      ensures Valid() && fresh(index) && fresh(records)
      ensures Value() == File(0, seq(n, i => 0), seq(n, i => []))
    {
      lastRecordId := 0;
      index := new uint16[n](i => 0);
      records := new Record[n](i => []);
    }

    method UpdateIndex(recordId: uint16, indexPos: nat)
      requires Valid() && indexPos < index.Length
      modifies this`lastRecordId, index
      ensures Value() == File(recordId, old(index[..])[indexPos := recordId], old(records[..]))
    {
      lastRecordId := recordId;
      index[indexPos] := recordId;
    }
  }

  class LocalFile {
    const file: ContentFile
    var lastRecordIdRead: uint16
    var lastSendResult: uint16

    constructor (file: ContentFile)
      ensures this.file == file && lastRecordIdRead == 0 && lastSendResult == ACK
    {
      this.file := file;
      lastRecordIdRead, lastSendResult := 0, ACK;
    }

    static method FindReusablePosition(lastRecordId: uint16, index: seq<uint16>) returns (pos: nat)
      requires |index| <= NOT_ASSIGNED
      ensures Reusable(lastRecordId, index, pos)
    {
      var maxDiff := 0;
      pos := NOT_ASSIGNED;
      for i := 0 to |index|
        invariant forall j :: 0 <= j < i ==> index[j] != 0 && Diff(lastRecordId, index[j]) <= maxDiff
        invariant if pos == NOT_ASSIGNED then maxDiff == 0
                  else pos < i && maxDiff > 0 && Diff(lastRecordId, index[pos]) == maxDiff
        invariant forall j :: 0 <= j < pos && j < i ==> Diff(lastRecordId, index[j]) < maxDiff || maxDiff == 0
      {
        if index[i] == 0 { return i; }
        var diff := Diff(lastRecordId, index[i]);
        if diff > maxDiff {
          maxDiff := diff;
          pos := i;
        }
      }
    }

    method FindNextUnreadPosition(lastRecordId: uint16, index: seq<uint16>) returns (pos: nat)
      requires |index| <= NOT_ASSIGNED
      modifies this`lastRecordIdRead
      ensures lastRecordIdRead == ReadFrom(lastRecordId, old(lastRecordIdRead), |index|)
      ensures NextUnread(lastRecordId, index, lastRecordIdRead, pos)
    {
      pos := NOT_ASSIGNED;
      if lastRecordIdRead == 0 { lastRecordIdRead := Diff(lastRecordId, |index|); }
      if lastRecordId == lastRecordIdRead { return; }
      var minDiff := 0xFFFF;
      for i := 0 to |index|
        invariant pos == NOT_ASSIGNED ==> minDiff == 0xFFFF
        invariant pos != NOT_ASSIGNED ==>
                    pos < i && Candidate(index[pos], lastRecordIdRead)
                    && Diff(index[pos], lastRecordIdRead) == minDiff
        invariant forall j :: 0 <= j < i && Candidate(index[j], lastRecordIdRead) ==>
                    minDiff <= Diff(index[j], lastRecordIdRead) && pos != NOT_ASSIGNED
        invariant forall j :: 0 <= j < pos && j < i && Candidate(index[j], lastRecordIdRead) ==>
                    minDiff < Diff(index[j], lastRecordIdRead)
      {
        if index[i] == 0 || index[i] == lastRecordIdRead { continue; }
        var diff := Diff(index[i], lastRecordIdRead);
        if diff < 0x8FFF && diff < minDiff {
          minDiff := diff;
          pos := i;
        }
      }
    }

    /** One locked write. In a ring state it appends to the log; see WriteAppends. */
    method WritePacketToFile(record: Record) returns (success: bool)
      requires file.Valid()
      modifies file`lastRecordId, file.index, file.records
      ensures file.Valid() && WriteStep(old(file.Value()), record, file.Value(), success)
    {
      success := false;
      var recordPos := FindReusablePosition(file.lastRecordId, file.index[..]);
      assert Reusable(old(file.Value()).last, old(file.Value()).index, recordPos);
      if recordPos != NOT_ASSIGNED {
        file.records[recordPos] := record;
        var nextRecordId := (file.lastRecordId + 1) % 0x1_0000;
        if nextRecordId == 0 { nextRecordId := 1; }
        file.UpdateIndex(nextRecordId, recordPos);
        success := true;
      }
    }

    /** One locked poll. In a ring state it follows the log; see PollReadsNext and FirstPoll. */
    method ReadNextPacketFromFile() returns (record: Option<Record>)
      requires file.Valid()
      modifies this`lastRecordIdRead
      ensures PollStep(file.Value(), old(lastRecordIdRead), lastRecordIdRead, record)
    {
      record := None;
      if file.lastRecordId != 0 {
        var recordPos := FindNextUnreadPosition(file.lastRecordId, file.index[..]);
        assert NextUnread(file.Value().last, file.Value().index, lastRecordIdRead, recordPos);
        if recordPos != NOT_ASSIGNED {
          record := Some(file.records[recordPos]);
          lastRecordIdRead := file.index[recordPos];
        }
      }
    }

    method SendFrame(data: seq<byte>)
      requires file.Valid()
      modifies this`lastSendResult, file`lastRecordId, file.index, file.records
      ensures file.Valid()
      ensures exists ok ::
                WriteStep(old(file.Value()), data, file.Value(), ok)
                && lastSendResult == if ok then ACK else FAIL
    {
      var ok := WritePacketToFile(data);
      ghost var after := file.Value();
      lastSendResult := if ok then ACK else FAIL;
      assert file.Value() == after;
    }

    method ReceiveResponse() returns (result: uint16)
      ensures result == lastSendResult
    {
      result := lastSendResult;
    }

    /** The polled record, cut to the room the caller has; None stands for PJON_FAIL. */
    method ReceiveFrame(maxLength: nat) returns (data: Option<seq<byte>>)
      requires file.Valid()
      modifies this`lastRecordIdRead
      ensures exists record ::
                PollStep(file.Value(), old(lastRecordIdRead), lastRecordIdRead, record)
                && data == match record
                           case None => None
                           case Some(m) => Some(if |m| < maxLength then m else m[..maxLength])
    {
      var record := ReadNextPacketFromFile();
      match record
      case None => data := None;
      case Some(m) => data := Some(if |m| < maxLength then m else m[..maxLength]);
    }
  }
}
