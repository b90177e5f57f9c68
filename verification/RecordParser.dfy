/** The record parser and packer as they work on a frame: cursors, loops and a linked record list. */
module RecordParser {
  import opened Bytes
  import opened FrameBuffer
  import opened Records
  import opened RecordLaws
  import opened Application

  class Node {
    const record: Record
    var next: Node?

    constructor (record: Record)
      ensures this.record == record && next == null
    {
      this.record := record;
      next := null;
    }
  }

  /** The parsed variable data: its records hang in a singly linked list. */
  class VariableBlock {
    var header: Header
    var first: Node?
    var nrecords: nat
    var moreRecordsFollow: bool
    ghost var nodes: seq<Node>

    ghost predicate Valid()
      reads this, nodes
    {
      && (first == if nodes == [] then null else nodes[0])
      && (forall k :: 0 <= k < |nodes| - 1 ==> nodes[k].next == nodes[k + 1])
      && (nodes != [] ==> nodes[|nodes| - 1].next == null)
      && (forall j, k :: 0 <= j < k < |nodes| ==> nodes[j] != nodes[k])
      && nrecords == |nodes|
    }

    /** The records in list order. */
    ghost function Contents(): seq<Record>
      reads this
    {
      seq(|nodes|, k requires 0 <= k < |nodes| reads this => nodes[k].record)
    }

    constructor ()
      ensures Valid() && Contents() == [] && !moreRecordsFollow && nodes == []
    {
      header := Header([], [], 0, 0, 0, 0, []);
      first, nrecords, moreRecordsFollow, nodes := null, 0, false, [];
    }

    /** mbus_data_record_append and the count beside it: walk to the end and hang the record there. */
    method Append(record: Record)
      requires Valid()
      modifies this`first, this`nrecords, this`nodes, nodes
      ensures Valid() && Contents() == old(Contents()) + [record]
      ensures |nodes| == |old(nodes)| + 1 && fresh(nodes[|old(nodes)|])
      ensures forall k :: 0 <= k < |old(nodes)| ==> nodes[k] == old(nodes[k])
    {
      ghost var was := nodes;
      var last := FindLast();
      var node := new Node(record);
      if last == null {
        first := node;
      } else {
        last.next := node;
      }
      nodes := was + [node];
      nrecords := nrecords + 1;
      assert forall k :: 0 <= k < |was| ==> nodes[k] == was[k];
      assert nodes[|was|] == node;
    }

    /** The walk to the end of the list. */
    method FindLast() returns (iter: Node?)
      requires Valid()
      ensures iter == if nodes == [] then null else nodes[|nodes| - 1]
    {
      iter := first;
      ghost var k := 0;
      while iter != null && iter.next != null
        invariant nodes != [] ==> 0 <= k < |nodes| && iter == nodes[k]
        invariant nodes == [] ==> iter == null
        invariant nodes != [] && k < |nodes| - 1 ==> iter.next == nodes[k + 1]
        decreases |nodes| - k
      {
        iter := iter.next;
        k := k + 1;
      }
    }

    /** Append, and note whether the record announces more telegrams. */
    method Store(record: Record)
      requires Valid()
      modifies this`first, this`nrecords, this`nodes, this`moreRecordsFollow, nodes
      ensures Valid() && Contents() == old(Contents()) + [record]
      ensures |nodes| == |old(nodes)| + 1 && fresh(nodes[|old(nodes)|])
      ensures forall k :: 0 <= k < |old(nodes)| ==> nodes[k] == old(nodes[k])
      ensures moreRecordsFollow == (old(moreRecordsFollow) || record.dif == MORE_RECORDS_FOLLOW)
    {
      if record.dif == MORE_RECORDS_FOLLOW {
        moreRecordsFollow := true;
      }
      Append(record);
    }
  }

  /** The extension loop behind a DIF or a first VIFE: `taken` extensions are stored already. */
  method ReadExtensions(mem: array<byte>, size: nat, i: nat, taken: seq<byte>)
    returns (ok: bool, stored: seq<byte>, next: nat)
    requires size + 2 <= mem.Length && |taken| <= MAX_EXTENSIONS
    ensures match Extensions(mem[..], size, i, |taken|)
            case None => !ok
            case Some(n) => ok && next == i + n && i + n + 1 <= mem.Length + i && (n > 0 ==> next <= size)
                            && |stored| == |taken| + n && (i <= size ==> stored == taken + mem[i + 1..i + n + 1])
                            && (i > size ==> stored == taken)
  {
    ok, stored, next := true, taken, i;
    while next < size && mem[next] >= 0x80
      invariant i <= next && (next > i ==> next <= size)
      invariant |stored| == |taken| + (next - i) <= MAX_EXTENSIONS
      invariant i <= size ==> stored == taken + mem[i + 1..next + 1]
      invariant i > size ==> stored == taken
      invariant match Extensions(mem[..], size, next, |stored|)
                case None => Extensions(mem[..], size, i, |taken|) == None
                case Some(n) => Extensions(mem[..], size, i, |taken|) == Some(n + (next - i))
      decreases size - next
    {
      if |stored| >= MAX_EXTENSIONS {
        ok := false;
        return;
      }
      stored := stored + [mem[next + 1]];
      next := next + 1;
    }
  }

  /** mbus_data_str_decode: the bytes back to front. */
  method ReverseCopy(mem: array<byte>, i: nat, len: nat) returns (text: seq<byte>)
    requires i + len <= mem.Length
    ensures text == Reversed(mem[i..i + len])
  {
    text := [];
    var left := len;
    while left > 0
      invariant 0 <= left <= len
      invariant Reversed(mem[i..i + len]) == text + Reversed(mem[i..i + left])
    {
      assert mem[i..i + left][..left - 1] == mem[i..i + left - 1];
      left := left - 1;
      text := text + [mem[i + left]];
    }
  }

  /** Copies data bytes one by one. */
  method Copy(mem: array<byte>, i: nat, len: nat) returns (bytes: seq<byte>)
    requires i + len <= mem.Length
    ensures bytes == mem[i..i + len]
  {
    bytes := [];
    var j := 0;
    while j < len
      invariant 0 <= j <= len && bytes == mem[i..i + j]
    {
      bytes := bytes + [mem[i + j]];
      j := j + 1;
    }
  }

  /** DIF and DIFE. */
  method ReadDib(mem: array<byte>, size: nat, i: nat) returns (ok: bool, dife: seq<byte>, next: nat)
    requires size + 2 <= mem.Length && i < size
    ensures match DibEnd(mem[..], size, i)
            case None => !ok
            case Some(j) => ok && next == j && i < j <= size && dife == mem[i + 1..j]
  {
    ok, dife, next := ReadExtensions(mem, size, i, []);
    next := next + 1;
    ok := ok && next <= size;
  }

  /** VIF and custom VIF. */
  method ReadVif(mem: array<byte>, size: nat, j: nat) returns (ok: bool, custom: seq<byte>, next: nat)
    requires size + 2 <= mem.Length && j <= size
    ensures match VifEnd(mem[..], size, j)
            case None => !ok
            case Some(k) => ok && next == k && j < k <= size + 1
                            && custom == if k - j >= 2 then Reversed(mem[j + 2..k]) else []
  {
    ok, custom, next := true, [], j + 1;
    if HasCustomVif(mem[j]) {
      var length := mem[next] as int;
      next := next + 1;
      if length > MAX_CUSTOM_VIF || next + length > size {
        ok := false;
        return;
      }
      custom := ReverseCopy(mem, next, length);
      next := next + length;
    }
  }

  /** VIFE: the first is stored before the loop that looks at extension bits. */
  method ReadVife(mem: array<byte>, size: nat, vif: byte, k: nat) returns (ok: bool, vife: seq<byte>, next: nat)
    requires size + 2 <= mem.Length && k <= size + 1
    ensures match VifeEnd(mem[..], size, vif, k)
            case None => !ok
            case Some(v) => ok && next == v && k <= v <= size && vife == mem[k..v]
  {
    ok, vife, next := true, [], k;
    if vif >= 0x80 {
      ok, vife, next := ReadExtensions(mem, size, k, [mem[k]]);
      next := next + 1;
    }
    ok := ok && next <= size;
  }

  /** Length by DIF or LVAR byte, and the data. */
  method ReadData(mem: array<byte>, size: nat, dif: byte, v: nat) returns (ok: bool, data: seq<byte>, next: nat)
    requires size + 2 <= mem.Length && v <= size
    ensures
      var (q, n) := DataSpan(mem[..], dif, v);
      ok == (q + n <= size) && (ok ==> next == q + n && data == mem[q..next])
  {
    var length := DataLength(dif);
    next := v;
    if HasVariableLength(dif) {
      var lvar := LvarLength(mem[v]);
      if lvar.Some? {
        next, length := next + 1, lvar.value;
      }
    }
    ok, data := next + length <= size, [];
    if ok {
      data := Copy(mem, next, length);
      next := next + length;
    }
  }

  /** One ordinary record: data information block, value information block, length and data. */
  method ReadRecord(mem: array<byte>, size: nat, i: nat) returns (ok: bool, record: Record, next: nat)
    requires size + 2 <= mem.Length && i < size
    ensures match Measure(mem[..], size, i)
            case None => !ok
            case Some(l) => ok && next == l.end && Ordered(i, l, size) && record == RecordOf(PartsAt(mem[..], i, l))
  {
    record := Record(mem[i], [], 0, [], [], []);
    var dife, custom, vife, data;
    ok, dife, next := ReadDib(mem, size, i);
    if !ok {
      return;
    }
    var vif := mem[next];
    ok, custom, next := ReadVif(mem, size, next);
    if !ok {
      return;
    }
    ok, vife, next := ReadVife(mem, size, vif, next);
    if !ok {
      return;
    }
    ok, data, next := ReadData(mem, size, mem[i], next);
    if ok {
      record := Record(mem[i], dife, vif, vife, custom, data);
      RecordFromParts(mem[..], size, i);
    }
  }

  /** The record of a layout, field by field. */
  lemma RecordFromParts(m: seq<byte>, size: nat, i: nat)
    requires size + 2 <= |m| && i < size && Measure(m, size, i).Some?
    ensures
      var l := Measure(m, size, i).value;
      && Ordered(i, l, size)
      && RecordOf(PartsAt(m, i, l)) ==
         Record(m[i], m[i + 1..l.vif], m[l.vif], m[l.vife..l.lvar],
                if l.vife - l.vif >= 2 then Reversed(m[l.vif + 2..l.vife]) else [], m[l.data..l.end])
  {
    LayoutInOrder(m, size, i);
    var l := Measure(m, size, i).value;
    assert m[i..l.vif][1..] == m[i + 1..l.vif];
    if l.vife - l.vif >= 2 {
      assert m[l.vif..l.vife][2..] == m[l.vif + 2..l.vife];
    }
  }

  /** A parse with result `whole` has passed the pieces `done` and has the parse `rest` ahead. */
  ghost predicate SoFar(whole: Option<seq<Piece>>, done: seq<Piece>, rest: Option<seq<Piece>>) {
    match rest
    case None => whole == None
    case Some(ps) => whole == Some(done + ps)
  }

  lemma SoFarStep(whole: Option<seq<Piece>>, done: seq<Piece>, p: Piece, rest: Option<seq<Piece>>)
    requires SoFar(whole, done, Prepend(p, rest))
    ensures SoFar(whole, done + [p], rest)
    ensures RecordsOf(done + [p]) == RecordsOf(done) + RecordsOf([p])
    ensures MoreFollow(done + [p]) <==> MoreFollow(done) || AsksForMore(p)
  {
    RecordsOfAppend(done, p);
    if rest.Some? {
      assert done + ([p] + rest.value) == done + [p] + rest.value;
    }
  }

  lemma TailPiece(m: seq<byte>, size: nat, i: nat) returns (p: Piece)
    requires size + 2 <= |m| && i < size && IsTail(m[i])
    ensures Split(m, size, i) == Prepend(p, Split(m, size, size))
    ensures RecordsOf([p]) == [Record(m[i], [], 0, [], [], m[i + 1..size])]
    ensures AsksForMore(p) <==> m[i] == MORE_RECORDS_FOLLOW
  {
    p := Rec(Parts(m[i..i + 1], [], [], [], m[i + 1..size]));
    assert m[i..i + 1][1..] == [] && [p][1..] == [];
    assert Split(m, size, size) == Some([]) && [p] + [] == [p];
  }

  lemma OrdinaryPiece(m: seq<byte>, size: nat, i: nat, l: Layout) returns (p: Piece)
    requires size + 2 <= |m| && i < size && m[i] != IDLE_FILLER && !IsTail(m[i])
    requires Measure(m, size, i) == Some(l) && Ordered(i, l, size)
    ensures Split(m, size, i) == Prepend(p, Split(m, size, l.end))
    ensures RecordsOf([p]) == [RecordOf(PartsAt(m, i, l))] && !AsksForMore(p)
  {
    p := Rec(PartsAt(m, i, l));
    assert [p][1..] == [];
  }

  /** What starts at `i`: a filler, a manufacturer specific block or an ordinary record. */
  method NextPiece(mem: array<byte>, size: nat, i: nat, ghost m: seq<byte>)
    returns (ok: bool, record: Option<Record>, next: nat, ghost piece: Piece)
    requires size + 2 <= mem.Length && i < size && m == mem[..]
    ensures !ok ==> Split(m, size, i) == None
    ensures ok ==> i < next <= size && Split(m, size, i) == Prepend(piece, Split(m, size, next))
    ensures ok ==> RecordsOf([piece]) == match record case None => [] case Some(r) => [r]
    ensures ok ==> (AsksForMore(piece) <==> record.Some? && record.value.dif == MORE_RECORDS_FOLLOW)
  {
    ok, record, next, piece := true, None, i + 1, Filler;
    if mem[i] == IDLE_FILLER {
      assert [piece][1..] == [];
    } else if IsTail(mem[i]) {
      var data := Copy(mem, i + 1, size - i - 1);
      record, next := Some(Record(mem[i], [], 0, [], [], data)), size;
      piece := TailPiece(m, size, i);
    } else {
      var r;
      ok, r, next, piece := ReadPiece(mem, size, i, m);
      record := Some(r);
    }
  }

  /** An ordinary record as a piece. */
  method ReadPiece(mem: array<byte>, size: nat, i: nat, ghost m: seq<byte>)
    returns (ok: bool, r: Record, next: nat, ghost piece: Piece)
    requires size + 2 <= mem.Length && i < size && m == mem[..] && m[i] != IDLE_FILLER && !IsTail(m[i])
    ensures !ok ==> Split(m, size, i) == None
    ensures ok ==> i < next <= size && Split(m, size, i) == Prepend(piece, Split(m, size, next))
    ensures ok ==> RecordsOf([piece]) == [r] && !AsksForMore(piece) && r.dif != MORE_RECORDS_FOLLOW
  {
    piece := Filler;
    ok, r, next := ReadRecord(mem, size, i);
    if ok {
      piece := OrdinaryPiece(m, size, i, Measure(m, size, i).value);
    }
  }

  /** mbus_data_variable_parse: header, then fillers and records up to the data size. */
  method ParseVariable(frame: Frame) returns (ok: bool, block: VariableBlock)
    requires frame.Valid()
    ensures fresh(block) && fresh(block.nodes) && block.Valid()
    ensures match VariableParse(frame.data[..], frame.dataSize)
            case None => !ok
            case Some(d) =>
              ok && VariableData(block.header, block.Contents(), block.moreRecordsFollow) == d
  {
    block := new VariableBlock();
    var mem, size := frame.data, frame.dataSize;
    ok := size >= HEADER_SIZE;
    if !ok {
      return;
    }
    block.header := Header(mem[..4], mem[4..6], mem[6], mem[7], mem[8], mem[9], mem[10..12]);
    ok := ParseRecords(mem, size, block);
  }

  /** The loop over fillers and records. */
  method ParseRecords(mem: array<byte>, size: nat, block: VariableBlock) returns (ok: bool)
    requires size + 2 <= mem.Length && HEADER_SIZE <= size
    requires block.Valid() && block.nodes == [] && !block.moreRecordsFollow
    modifies block`first, block`nrecords, block`nodes, block`moreRecordsFollow
    ensures block.Valid() && fresh(block.nodes)
    ensures match Split(mem[..], size, HEADER_SIZE)
            case None => !ok
            case Some(ps) => ok && block.Contents() == RecordsOf(ps) && block.moreRecordsFollow == MoreFollow(ps)
  {
    ghost var m := mem[..];
    ghost var whole := Split(m, size, HEADER_SIZE);
    var i := HEADER_SIZE;
    ghost var done: seq<Piece> := [];
    ok := true;
    assert whole.Some? ==> done + whole.value == whole.value;
    while i < size
      invariant i <= size && ok
      invariant block.Valid() && forall k :: 0 <= k < |block.nodes| ==> fresh(block.nodes[k])
      invariant SoFar(whole, done, Split(m, size, i))
      invariant block.Contents() == RecordsOf(done) && block.moreRecordsFollow == MoreFollow(done)
    {
      var record;
      ghost var piece;
      ok, record, i, piece := NextPiece(mem, size, i, m);
      if !ok {
        return;
      }
      SoFarStep(whole, done, piece, Split(m, size, i));
      done := done + [piece];
      match record {
        case Some(r) => block.Store(r);
        case None => assert block.Contents() + [] == block.Contents();
      }
    }
    assert done + [] == done;
  }

  datatype DataKind = NoData | ErrorKind | FixedKind | VariableKind

  /** mbus_frame_data with the parts that its type gives a meaning. */
  class ReplyData {
    var kind: DataKind
    var error: byte
    var fixed: seq<byte>
    var variable: VariableBlock

    ghost predicate Valid()
      reads this, variable, variable.nodes
    {
      variable.Valid()
    }

    constructor ()
      ensures fresh(variable) && variable.nodes == [] && Valid() && kind == NoData
    {
      kind, error, fixed := NoData, 0, [];
      variable := new VariableBlock();
    }

    /** The parsed data as a value. */
    ghost function View(): Option<FrameData>
      reads this, variable
    {
      match kind
      case NoData => None
      case ErrorKind => Some(ErrorData(error))
      case FixedKind => Some(FixedData(fixed))
      case VariableKind => Some(VariableData(variable.header, variable.Contents(), variable.moreRecordsFollow))
    }
  }

  /** mbus_frame_data_parse: dispatch on direction and CI byte; `ok` is a return value other than -1. */
  method ParseFrameData(frame: Frame) returns (ok: bool, data: ReplyData)
    requires frame.Valid()
    ensures fresh(data) && fresh(data.variable) && fresh(data.variable.nodes) && data.Valid()
    ensures ok <==> DataParse(frame.control, frame.controlInformation, frame.data[..], frame.dataSize).Some?
    ensures ok ==> data.View() == DataParse(frame.control, frame.controlInformation, frame.data[..], frame.dataSize)
  {
    data := new ReplyData();
    ok := false;
    if FromMaster(frame.control) {
      return;
    }
    if frame.controlInformation == ERROR_GENERAL {
      data.kind, ok := ErrorKind, true;
      data.error := if frame.dataSize > 0 then frame.data[0] else 0;
    } else if frame.controlInformation == RESP_FIXED {
      data.kind := FixedKind;
      if frame.dataSize == FIXED_DATA_SIZE {
        data.fixed, ok := frame.data[..FIXED_DATA_SIZE], true;
      }
    } else if frame.controlInformation == RESP_VARIABLE {
      data.kind := VariableKind;
      if frame.dataSize > 0 {
        var good, block := ParseVariable(frame);
        ok, data.variable := good, block;
      }
    }
  }
}
