/** The link-layer telegrams: the fields of a frame, packing them, and the incremental parser
    that tells how many bytes are still missing. */
module Telegram {
  import opened Bytes

  const ACK_START: byte := 0xE5
  const SHORT_START: byte := 0x10
  const LONG_START: byte := 0x68
  const STOP: byte := 0x16
  const SHORT_SIZE := 5
  const FIXED_SIZE_LONG := 6
  const MAX_DATA := 252

  datatype FrameKind = AnyKind | Ack | Short | Control | Long

  /** The fields of a frame; `data` holds exactly the bytes that count (data_size of them). */
  datatype Fields = Fields(
    start1: byte, length1: byte, length2: byte, start2: byte,
    control: byte, address: byte, controlInformation: byte,
    checksum: byte, stop: byte, data: seq<byte>, kind: FrameKind)

  const Blank := Fields(0, 0, 0, 0, 0, 0, 0, 0, 0, [], AnyKind)

  /** Start and stop bytes as mbus_frame_new sets them. */
  function NewFields(kind: FrameKind): Fields {
    match kind
    case Ack => Blank.(kind := Ack, start1 := ACK_START)
    case Short => Blank.(kind := Short, start1 := SHORT_START, stop := STOP)
    case Control => Blank.(kind := Control, start1 := LONG_START, start2 := LONG_START,
                           length1 := 3, length2 := 3, stop := STOP)
    case Long => Blank.(kind := Long, start1 := LONG_START, start2 := LONG_START, stop := STOP)
    case AnyKind => Blank
  }

  function Checksum(f: Fields): byte {
    match f.kind
    case Short => (f.control + f.address) % 256
    case Control => (f.control + f.address + f.controlInformation) % 256
    case Long => (f.control + f.address + f.controlInformation + Sum(f.data)) % 256
    case _ => 0
  }

  /** The length byte; it is an unsigned char, so it wraps. */
  function LengthByte(f: Fields): byte {
    match f.kind
    case Control => 3
    case Long => (|f.data| + 3) % 256
    case _ => 0
  }

  predicate AllowedShort(c: byte) {
    c in {0x40, 0x5A, 0x7A, 0x5B, 0x7B}
  }

  predicate AllowedLong(c: byte) {
    c in {0x53, 0x73, 0x08, 0x18, 0x28, 0x38}
  }

  /** mbus_frame_verify: 0 is good, -1 is bad, and an ACK answers 1 when its start byte is right. */
  function Verify(f: Fields): int {
    if f.kind == Ack then
      if f.start1 == ACK_START then 1 else 0
    else if f.kind == AnyKind then -1
    else if f.kind == Short && (f.start1 != SHORT_START || !AllowedShort(f.control)) then -1
    else if f.kind != Short && (f.start1 != LONG_START || f.start2 != LONG_START) then -1
    else if f.kind != Short && !AllowedLong(f.control) then -1
    else if f.kind != Short && f.length1 != f.length2 then -1
    else if f.kind != Short && f.length1 != LengthByte(f) then -1
    else if f.stop != STOP then -1
    else if f.checksum != Checksum(f) then -1
    else 0
  }

  /** What mbus_parse returns and what it leaves in the frame: 0 is done, a positive code is the
      number of bytes still missing, a negative one is a rejection. */
  datatype Parsed = Parsed(code: int, fields: Fields)

  function ShortFields(f: Fields, d: seq<byte>): Fields
    requires |d| == SHORT_SIZE
  {
    f.(start1 := d[0], control := d[1], address := d[2], checksum := d[3], stop := d[4], kind := Short)
  }

  function LongFields(f: Fields, d: seq<byte>): Fields
    requires |d| >= 9
  {
    f.(start1 := d[0], length1 := d[1], length2 := d[2], start2 := d[3],
    control := d[4], address := d[5], controlInformation := d[6],
    data := d[7..|d| - 2], checksum := d[|d| - 2], stop := d[|d| - 1],
    kind := if |d| == 9 then Control else Long)
  }

  function Parse(f: Fields, d: seq<byte>): Parsed {
    if |d| == 0 then Parsed(-1, f)
    else if d[0] == ACK_START then Parsed(0, f.(start1 := d[0], kind := Ack))
    else if d[0] == SHORT_START then
      if |d| < SHORT_SIZE then Parsed(SHORT_SIZE - |d|, f)
      else if |d| != SHORT_SIZE then Parsed(-2, f)
      else
        var g := ShortFields(f, d);
        Parsed(if Verify(g) != 0 then -3 else 0, g)
    else if d[0] == LONG_START then
      if |d| < 3 then Parsed(3 - |d|, f)
      else
        var g := f.(start1 := d[0], length1 := d[1], length2 := d[2]);
        if d[1] < 3 || d[1] != d[2] then Parsed(-2, g)
        else if |d| < FIXED_SIZE_LONG + d[1] then Parsed(FIXED_SIZE_LONG + d[1] - |d|, g)
        else if |d| > FIXED_SIZE_LONG + d[1] then Parsed(-2, g)
        else
          var h := LongFields(f, d);
          Parsed(if Verify(h) != 0 then -3 else 0, h)
    else Parsed(-4, f)
  }

  /** The return code alone: it does not depend on what the frame held before. */
  function Code(d: seq<byte>): int {
    Parse(Blank, d).code
  }

  lemma CodeIgnoresOldFields(f: Fields, d: seq<byte>)
    ensures Parse(f, d).code == Code(d)
  {
    if |d| >= 9 && d[0] == LONG_START {
      assert LengthByte(LongFields(f, d)) == LengthByte(LongFields(Blank, d));
      assert Checksum(LongFields(f, d)) == Checksum(LongFields(Blank, d));
    }
  }

  // ---------------------------------------------------------------- the wire format

  predicate IsShort(d: seq<byte>) {
    && |d| == 5 && d[0] == SHORT_START && AllowedShort(d[1])
    && d[3] == LowByte(d[1] as int + d[2]) && d[4] == STOP
  }

  /** A control or long telegram: both length bytes count what lies between the second start byte
      and the check sum, and the check sum is the sum of exactly those bytes. */
  predicate IsLong(d: seq<byte>) {
    && 9 <= |d| <= 261 && d[0] == LONG_START && d[3] == LONG_START
    && d[1] == d[2] == |d| - 6 && AllowedLong(d[4])
    && d[|d| - 2] == LowByte(Sum(d[4..|d| - 2])) && d[|d| - 1] == STOP
  }

  /** A well-formed telegram, ACK included. */
  predicate IsTelegram(d: seq<byte>) {
    d == [ACK_START] || IsShort(d) || IsLong(d)
  }

  lemma SumOfBody(d: seq<byte>)
    requires |d| >= 9
    ensures Sum(d[4..|d| - 2]) == d[4] as int + d[5] + d[6] + Sum(d[7..|d| - 2])
  {
    var head := [d[4], d[5], d[6]];
    assert d[4..|d| - 2] == head + d[7..|d| - 2];
    SumAppend(head, d[7..|d| - 2]);
    SumAppend([d[4]], [d[5]]);
    SumAppend([d[4], d[5]], [d[6]]);
    assert [d[4]] + [d[5]] == [d[4], d[5]] && [d[4], d[5]] + [d[6]] == head;
    SumOne(d[4]);
    SumOne(d[5]);
    SumOne(d[6]);
  }

  /** The parser accepts exactly the well-formed telegrams and everything that starts with E5. */
  lemma AcceptsExactly(d: seq<byte>)
    ensures Code(d) == 0 <==> (|d| > 0 && d[0] == ACK_START) || IsShort(d) || IsLong(d)
  {
    if |d| >= 9 && d[0] == LONG_START {
      SumOfBody(d);
    }
  }

  /** Acceptance in terms of the bytes alone. A short telegram is a reset (40), or a data request from
      the master with a free frame count bit; a long one is a response of a slave with free access
      demand and flow control bits, or data from the master with a free frame count bit. */
  lemma AcceptsByBits(d: seq<byte>)
    ensures Code(d) == 0 <==>
              || (|d| > 0 && d[0] == 0xE5)
              || (|d| == 5 && d[0] == 0x10 && d[4] == 0x16 && d[3] == (d[1] as int + d[2]) % 0x100
                  && (d[1] == 0x40 || (d[1] / 0x40 == 1 && (d[1] % 0x20 == 0x1A || d[1] % 0x20 == 0x1B))))
              || (9 <= |d| && d[0] == 0x68 && d[3] == 0x68 && d[1] == |d| - 6 && d[2] == |d| - 6
                  && d[|d| - 1] == 0x16 && d[|d| - 2] == Sum(d[4..|d| - 2]) % 0x100
                  && ((d[4] < 0x40 && d[4] % 0x10 == 8) || (d[4] / 0x40 == 1 && d[4] % 0x20 == 0x13)))
  {
    AcceptsExactly(d);
    if |d| == 5 {
      ShortByBits(d[1]);
    } else if |d| >= 9 {
      LongByBits(d[4]);
    }
  }

  lemma ShortByBits(c: byte)
    ensures AllowedShort(c) <==> c == 0x40 || (c / 0x40 == 1 && (c % 0x20 == 0x1A || c % 0x20 == 0x1B))
  {
  }

  lemma LongByBits(c: byte)
    ensures AllowedLong(c) <==> (c < 0x40 && c % 0x10 == 8) || (c / 0x40 == 1 && c % 0x20 == 0x13)
  {
  }

  /** The count of missing bytes is exact: a strict part of them leaves the rest missing. */
  lemma NeedIsExact(d: seq<byte>, more: seq<byte>)
    requires 0 < |more| < Code(d)
    ensures Code(d + more) == Code(d) - |more|
  {
    assert (d + more)[0] == d[0];
    if |d| >= 3 {
      assert (d + more)[..3] == d[..3];
      assert (d + more)[1] == d[1] && (d + more)[2] == d[2];
    }
  }

  /** The parser never waits for bytes beyond the largest telegram. */
  lemma NeedIsBounded(d: seq<byte>)
    ensures Code(d) > 0 ==> 0 < |d| && |d| + Code(d) <= 261
  {
  }

  /** On every strict prefix of a telegram the parser asks for more, and never past its end. */
  lemma NeverAsksPastTheEnd(t: seq<byte>, k: nat)
    requires IsTelegram(t) && 0 < k < |t|
    ensures 0 < Code(t[..k]) <= |t| - k
  {
  }

  // ---------------------------------------------------------------- packing

  /** The frame after mbus_frame_pack has filled in its lengths and check sum. */
  function Sealed(f: Fields): (g: Fields) {
    var l := f.(length1 := LengthByte(f), length2 := LengthByte(f));
    l.(checksum := Checksum(l))
  }

  function Head(f: Fields): seq<byte> {
    [f.start1, f.length1, f.length2, f.start2, f.control, f.address, f.controlInformation]
  }

  function Tail(f: Fields): seq<byte> {
    [f.checksum, f.stop]
  }

  /** The bytes of a sealed frame. */
  function Wire(f: Fields): seq<byte>
    requires f.kind != AnyKind
  {
    match f.kind
    case Ack => [f.start1]
    case Short => [f.start1, f.control, f.address, f.checksum, f.stop]
    case Control => Head(f) + Tail(f)
    case Long => Head(f) + f.data + Tail(f)
  }

  /** mbus_frame_pack into a buffer of `room` bytes: the bytes, or its error code. An unknown kind
      already fails at the check sum, so its last error code (-5) is never returned. */
  datatype Packed = Bytes(bytes: seq<byte>) | Failed(code: int)

  function Pack(f: Fields, room: nat): Packed {
    if f.kind == AnyKind then Failed(-3)
    else if room < |Wire(Sealed(f))| then Failed(-4)
    else Bytes(Wire(Sealed(f)))
  }

  /** A frame that may be sent: right start and stop bytes, an allowed control byte, data that fits. */
  predicate Sendable(f: Fields) {
    match f.kind
    case AnyKind => false
    case Ack => f.start1 == ACK_START
    case Short => f.start1 == SHORT_START && f.stop == STOP && AllowedShort(f.control)
    case _ => f.start1 == f.start2 == LONG_START && f.stop == STOP && AllowedLong(f.control) && |f.data| <= MAX_DATA
  }

  /** Agreement on the fields that a frame of this kind puts on the wire. */
  predicate Same(f: Fields, g: Fields) {
    && f.kind == g.kind && f.start1 == g.start1
    && (f.kind in {Short, Control, Long} ==>
          f.control == g.control && f.address == g.address && f.checksum == g.checksum && f.stop == g.stop)
    && (f.kind in {Control, Long} ==>
          && f.length1 == g.length1 && f.length2 == g.length2 && f.start2 == g.start2
          && f.controlInformation == g.controlInformation)
    && (f.kind == Long ==> f.data == g.data)
  }

  /** The data bytes that a control or long frame puts on the wire. */
  function BodyOf(f: Fields): seq<byte> {
    if f.kind == Control then [] else f.data
  }

  /** Where the fields of a control or long frame lie on the wire. */
  lemma LongOnWire(f: Fields)
    requires f.kind == Control || f.kind == Long
    ensures
      var d := Wire(f);
      && |d| == 9 + |BodyOf(f)| && d[7..|d| - 2] == BodyOf(f)
      && d[0] == f.start1 && d[1] == f.length1 && d[2] == f.length2 && d[3] == f.start2
      && d[4] == f.control && d[5] == f.address && d[6] == f.controlInformation
      && d[|d| - 2] == f.checksum && d[|d| - 1] == f.stop
  {
    var d := Wire(f);
    assert d == Head(f) + BodyOf(f) + Tail(f);
  }

  /** The length byte counts what lies between the second start byte and the check sum, exactly as
      long as the data fits into a telegram; from 253 data bytes on it wraps. */
  lemma LengthByteExactly(f: Fields)
    requires f.kind == Control || f.kind == Long
    ensures LengthByte(f) == |Wire(f)| - 6 <==> |BodyOf(f)| <= MAX_DATA
  {
    LongOnWire(f);
  }

  /** A frame of a known kind is verified as good exactly if its bytes on the wire are a telegram; for an
      ACK the answer is then 1 and else 0. */
  lemma VerifyExactly(f: Fields)
    requires f.kind != AnyKind && |f.data| <= MAX_DATA
    ensures f.kind == Ack ==> Verify(f) == if IsTelegram(Wire(f)) then 1 else 0
    ensures f.kind != Ack ==> Verify(f) == if IsTelegram(Wire(f)) then 0 else -1
  {
    var d := Wire(f);
    if f.kind == Control || f.kind == Long {
      LongOnWire(f);
      SumOfBody(d);
    }
  }

  /** Packing any frame that may be sent gives a well-formed telegram. */
  lemma PackedIsTelegram(f: Fields)
    requires Sendable(f)
    ensures IsTelegram(Wire(Sealed(f)))
  {
    var g := Sealed(f);
    var d := Wire(g);
    if f.kind == Control || f.kind == Long {
      LongOnWire(g);
      LengthByteExactly(g);
      SumOfBody(d);
      assert IsLong(d);
    }
  }

  /** Parsing undoes packing. A long frame without data is on the wire a control frame. */
  lemma ParseUndoesPack(f: Fields, prior: Fields)
    requires Sendable(f)
    ensures Parse(prior, Wire(Sealed(f))).code == 0
    ensures f.kind == Long && f.data == [] ==>
              && Same(Parse(prior, Wire(Sealed(f))).fields, Sealed(f.(kind := Control)))
              && Wire(Sealed(f)) == Wire(Sealed(f.(kind := Control)))
    ensures !(f.kind == Long && f.data == []) ==> Same(Parse(prior, Wire(Sealed(f))).fields, Sealed(f))
  {
    var g := Sealed(f);
    var d := Wire(g);
    PackedIsTelegram(f);
    AcceptsExactly(d);
    CodeIgnoresOldFields(prior, d);
    if f.kind == Control || f.kind == Long {
      LongOnWire(g);
      LengthByteExactly(g);
    }
  }

  /** Packing undoes parsing: every accepted telegram, and of the ACKs the one-byte one, comes back
      byte for byte; a longer buffer that starts with E5 is accepted and does not. */
  lemma PackUndoesParse(d: seq<byte>, prior: Fields)
    requires Parse(prior, d).code == 0
    ensures Parse(prior, d).fields.kind != AnyKind
    ensures Wire(Sealed(Parse(prior, d).fields)) == d <==> IsTelegram(d)
    ensures !IsTelegram(d) <==> d[0] == ACK_START && |d| > 1
  {
    CodeIgnoresOldFields(prior, d);
    AcceptsExactly(d);
    var g := Parse(prior, d).fields;
    if IsLong(d) {
      assert g == LongFields(prior, d);
      assert g.length1 == LengthByte(g) && g.checksum == Checksum(g);
      assert d == d[..7] + d[7..|d| - 2] + d[|d| - 2..];
      assert Head(g) == d[..7] && Tail(g) == d[|d| - 2..];
      if |d| == 9 {
        assert d[7..|d| - 2] == [];
      }
    }
  }

  lemma BodyErrorChangesTheSum(d: seq<byte>, i: nat, b: byte)
    requires |d| >= 9 && 4 <= i < |d| - 2 && b != d[i]
    ensures LowByte(Sum(d[i := b][4..|d| - 2])) != LowByte(Sum(d[4..|d| - 2]))
  {
    assert d[i := b][4..|d| - 2] == d[4..|d| - 2][i - 4 := b];
    SumUpdate(d[4..|d| - 2], i - 4, b);
  }

  /** Changing any one byte of a short, control or long telegram is noticed, except exactly the
      change of the first byte into the start byte of an ACK. */
  lemma OneByteErrorExactly(d: seq<byte>, i: nat, b: byte)
    requires IsShort(d) || IsLong(d)
    requires i < |d| && b != d[i]
    ensures Code(d[i := b]) == 0 <==> i == 0 && b == ACK_START
  {
    var e := d[i := b];
    AcceptsExactly(e);
    if i > 0 && IsLong(d) {
      assert !IsShort(e);
      if 4 <= i < |d| - 2 {
        BodyErrorChangesTheSum(d, i, b);
      } else {
        assert e[4..|e| - 2] == d[4..|d| - 2];
      }
    }
  }
}
