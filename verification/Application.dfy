/** The three kinds of reply data, and their way through packing, the link layer and parsing. */
module Application {
  import opened Bytes
  import opened Telegram
  import opened Records
  import opened RecordLaws

  const ERROR_GENERAL: byte := 0x70
  const RESP_VARIABLE: byte := 0x72
  const RESP_FIXED: byte := 0x73
  const RSP_UD: byte := 0x08
  const FIXED_DATA_SIZE := 16

  datatype FrameData =
    | ErrorData(error: byte)
    | FixedData(bytes: seq<byte>)
    | VariableData(header: Header, records: seq<Record>, more: bool)

  predicate FromMaster(control: byte) {
    control / 64 % 2 == 1
  }

  function VariableParse(mem: seq<byte>, size: nat): Option<FrameData>
    requires size + 2 <= |mem|
  {
    if size < HEADER_SIZE then None
    else
      match Split(mem, size, HEADER_SIZE)
      case None => None
      case Some(ps) => Some(VariableData(HeaderOf(mem), RecordsOf(ps), MoreFollow(ps)))
  }

  /** mbus_frame_data_parse on control byte, CI byte and data; the kind of frame is not looked at. */
  function DataParse(control: byte, ci: byte, mem: seq<byte>, size: nat): Option<FrameData>
    requires size + 2 <= |mem|
  {
    if FromMaster(control) then None
    else if ci == ERROR_GENERAL then Some(ErrorData(if size > 0 then mem[0] else 0))
    else if ci == RESP_FIXED then
      if size != FIXED_DATA_SIZE then None else Some(FixedData(mem[..FIXED_DATA_SIZE]))
    else if ci == RESP_VARIABLE then VariableParse(mem, size)
    else None
  }

  /** mbus_frame_internal_pack. */
  function PackData(d: FrameData): seq<byte> {
    match d
    case ErrorData(e) => [e]
    case FixedData(b) => b
    case VariableData(h, rs, _) => PackVariable(h, rs)
  }

  function CiOf(d: FrameData): byte {
    match d
    case ErrorData(_) => ERROR_GENERAL
    case FixedData(_) => RESP_FIXED
    case VariableData(_, _, _) => RESP_VARIABLE
  }

  /** Data that fits into one telegram; a variable data structure of fixed width records. */
  predicate Portable(d: FrameData) {
    && |PackData(d)| <= MAX_DATA
    && match d
       case ErrorData(_) => true
       case FixedData(b) => |b| == FIXED_DATA_SIZE
       case VariableData(h, rs, more) => GoodHeader(h) && !more && forall r :: r in rs ==> FixedWidth(r)
  }

  /** The reply telegram that carries the data. */
  function Reply(address: byte, d: FrameData): Fields {
    NewFields(Long).(control := RSP_UD, address := address, controlInformation := CiOf(d), data := PackData(d))
  }

  /** Application round trip: packed, framed, parsed by the link layer and by the application layer,
      the data comes back unchanged, whatever the frame held before and whatever lies behind its data. */
  lemma ReplyRoundTrip(address: byte, d: FrameData, prior: Fields, behind: seq<byte>)
    requires Portable(d) && |behind| >= 2
    ensures
      var parsed := Parse(prior, Wire(Sealed(Reply(address, d))));
      var g := parsed.fields;
      && parsed.code == 0 && g.kind == Long && g.address == address
      && DataParse(g.control, g.controlInformation, g.data + behind, |g.data|) == Some(d)
  {
    ParseUndoesPack(Reply(address, d), prior);
    DataComesBack(d, behind);
  }

  /** The part of the round trip that is left to the application layer. */
  lemma DataComesBack(d: FrameData, behind: seq<byte>)
    requires Portable(d) && |behind| >= 2
    ensures PackData(d) != [] && DataParse(RSP_UD, CiOf(d), PackData(d) + behind, |PackData(d)|) == Some(d)
  {
    match d {
      case ErrorData(_) =>
      case FixedData(b) =>
        assert (b + behind)[..FIXED_DATA_SIZE] == b;
      case VariableData(h, rs, _) =>
        ParseUndoesPackVariable(h, rs, behind);
        NoMoreFollow(rs);
    }
  }

  /** Only the data of the frame counts, except where a variable length record dangles. */
  lemma DataParseIgnoresStaleBytes(control: byte, ci: byte, a: seq<byte>, b: seq<byte>, size: nat)
    requires size + 2 <= |a| && size + 2 <= |b| && a[..size] == b[..size]
    requires ci == RESP_VARIABLE ==> !Dangles(a, size, HEADER_SIZE)
    ensures DataParse(control, ci, a, size) == DataParse(control, ci, b, size)
  {
    StaleBytesDoNotMatter(a, b, size, HEADER_SIZE);
    if size >= HEADER_SIZE {
      HeaderStable(a, b, size);
    }
    if size > 0 {
      assert a[0] == a[..size][0] == b[0];
    }
    if size == FIXED_DATA_SIZE {
      SlicesStable(a, b, size, 0, FIXED_DATA_SIZE);
    }
  }

  lemma HeaderStable(a: seq<byte>, b: seq<byte>, size: nat)
    requires HEADER_SIZE <= size <= |a| && size <= |b| && a[..size] == b[..size]
    ensures HeaderOf(a) == HeaderOf(b)
  {
    assert forall k :: 0 <= k < HEADER_SIZE ==> a[..size][k] == a[k] && b[..size][k] == b[k];
  }
}
