/** mbus_frame_internal_pack: reply data written into a frame, byte after byte. */
module RecordPacker {
  import opened Bytes
  import opened Telegram
  import opened FrameBuffer
  import opened Records
  import opened RecordLaws
  import opened Application
  import opened RecordParser

  /** Appends bytes at the frame's data size. */
  method Put(frame: Frame, bytes: seq<byte>)
    requires frame.Valid() && frame.dataSize + |bytes| <= MAX_DATA
    modifies frame`dataSize, frame.data
    ensures frame.Valid() && frame.dataSize == old(frame.dataSize) + |bytes|
    ensures frame.data[..frame.dataSize] == old(frame.data[..frame.dataSize]) + bytes
  {
    ghost var before := frame.data[..frame.dataSize];
    var j := 0;
    while j < |bytes|
      invariant 0 <= j <= |bytes| && frame.Valid() && frame.dataSize == |before| + j
      invariant frame.data[..frame.dataSize] == before + bytes[..j]
    {
      frame.data[frame.dataSize] := bytes[j];
      frame.dataSize := frame.dataSize + 1;
      j := j + 1;
    }
  }

  /** One record: DIF, DIFE, VIF, VIFE and data; no LVAR byte and no custom VIF. */
  method PutRecord(frame: Frame, r: Record)
    requires frame.Valid() && frame.dataSize + |PackRecord(r)| <= MAX_DATA
    modifies frame`dataSize, frame.data
    ensures frame.Valid() && frame.dataSize == old(frame.dataSize) + |PackRecord(r)|
    ensures frame.data[..frame.dataSize] == old(frame.data[..frame.dataSize]) + PackRecord(r)
  {
    ghost var before := frame.data[..frame.dataSize];
    Put(frame, [r.dif]);
    Put(frame, r.dife);
    Put(frame, [r.vif]);
    Put(frame, r.vife);
    Put(frame, r.data);
    assert before + [r.dif] + r.dife + [r.vif] + r.vife + r.data == before + PackRecord(r);
  }

  lemma PackFrom(records: seq<Record>, k: nat)
    requires k < |records|
    ensures PackRecords(records[k..]) == PackRecord(records[k]) + PackRecords(records[k + 1..])
  {
    assert records[k..][1..] == records[k + 1..];
  }

  /** The walk along the record list. */
  method PutRecords(frame: Frame, block: VariableBlock)
    requires frame.Valid() && block.Valid() && frame.dataSize + |PackRecords(block.Contents())| <= MAX_DATA
    modifies frame`dataSize, frame.data
    ensures frame.Valid()
    ensures frame.data[..frame.dataSize] == old(frame.data[..frame.dataSize]) + PackRecords(block.Contents())
  {
    ghost var nodes, records := block.nodes, block.Contents();
    ghost var whole := frame.data[..frame.dataSize] + PackRecords(records);
    var node := block.first;
    ghost var k := 0;
    assert records[0..] == records;
    while node != null
      invariant frame.Valid() && 0 <= k <= |nodes|
      invariant node == if k < |nodes| then nodes[k] else null
      invariant frame.data[..frame.dataSize] + PackRecords(records[k..]) == whole
      decreases |nodes| - k
    {
      PackFrom(records, k);
      assert records[k] == node.record;
      PutRecord(frame, node.record);
      node := node.next;
      k := k + 1;
    }
    assert frame.data[..frame.dataSize] + [] == frame.data[..frame.dataSize];
  }

  /** mbus_frame_internal_pack; the data has to fit into the frame. */
  method PackFrameData(frame: Frame, data: ReplyData) returns (code: int)
    requires frame.Valid() && data.Valid()
    requires data.View().Some? ==> |PackData(data.View().value)| <= MAX_DATA
    modifies frame`dataSize, frame.data
    ensures frame.Valid()
    ensures match data.View()
            case None => code == -2 && frame.dataSize == 0
            case Some(d) => code == 0 && frame.data[..frame.dataSize] == PackData(d)
  {
    frame.dataSize := 0;
    code := 0;
    match data.kind {
      case NoData =>
        code := -2;
      case ErrorKind =>
        Put(frame, [data.error]);
      case FixedKind =>
        Put(frame, data.fixed);
      case VariableKind =>
        PutVariable(frame, data.variable);
    }
  }

  /** The header, then the records. */
  method PutVariable(frame: Frame, block: VariableBlock)
    requires frame.Valid() && block.Valid() && frame.dataSize == 0
    requires |PackVariable(block.header, block.Contents())| <= MAX_DATA
    modifies frame`dataSize, frame.data
    ensures frame.Valid() && frame.data[..frame.dataSize] == PackVariable(block.header, block.Contents())
  {
    var h := block.header;
    Put(frame, h.id + h.manufacturer + [h.version, h.medium, h.accessNo, h.status] + h.signature);
    assert frame.data[..frame.dataSize] == HeaderBytes(h);
    PutRecords(frame, block);
  }
}
