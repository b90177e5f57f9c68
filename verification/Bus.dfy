/** The slaves on the bus as the master meets them: which ones a select telegram selects, and what
    the line carries back. */
module Bus {
  import opened Bytes
  import opened Telegram
  import opened Framing
  import opened Port
  import opened Records
  import opened RecordLaws
  import opened Application
  import opened SecondaryAddress

  datatype Probe = Nothing | Single | Collision | ProbeError

  // ---------------------------------------------------------------- reading a reply to a select

  function ReplyKind(s: seq<byte>): FrameKind
  {
    Parse(Blank, s[..End(s)]).fields.kind
  }

  /** What mbus_select_secondary_address makes of the pending bytes. */
  function Classify(s: seq<byte>): Probe {
    if Outcome(s) == RecvTimeout then Nothing
    else if Outcome(s) != RecvOk then Collision
    else if ReplyKind(s) == Ack then if s[End(s)..] != [] then Collision else Single
    else Nothing
  }

  /** Nothing for a silent line and for a telegram that is no ACK, a single device exactly for a lone
      ACK, and a collision for everything else. */
  lemma ClassifyExactly(s: seq<byte>)
    ensures Classify(s) == Single <==> s == [ACK_START]
    ensures Classify(s) == Nothing <==> s == [] || exists t :: (IsShort(t) || IsLong(t)) && t <= s
    ensures Classify(s) != ProbeError
  {
    OutcomeOkExactly(s);
    if s != [] && s[0] == ACK_START {
      assert s == [ACK_START] <==> s[1..] == [];
      assert forall t :: (IsShort(t) || IsLong(t)) && t <= s ==> t[0] == s[0];
    } else if Outcome(s) == RecvOk {
      var t := s[..End(s)];
      assert t <= s && (IsShort(t) || IsLong(t));
      AcceptsExactly(t);
    } else if exists t :: (IsShort(t) || IsLong(t)) && t <= s {
      var t :| (IsShort(t) || IsLong(t)) && t <= s;
      assert IsTelegram(t) && t <= s;
    }
  }

  // ---------------------------------------------------------------- devices

  /** A slave: its eight address bytes and the telegram it answers a data request with. */
  datatype Device = Device(address: seq<byte>, telegram: seq<byte>)

  function Payload(d: Device): Fields {
    Parse(Blank, d.telegram).fields
  }

  /** Decimal ID, and a reply of variable data structure that starts with the address and parses. */
  ghost predicate GoodDevice(d: Device) {
    && |d.address| == 8 && (forall k :: 0 <= k < 8 ==> Nibble(d.address, k) < 10)
    && IsLong(d.telegram) && |d.telegram| > 9
    && var g := Payload(d);
       && !FromMaster(g.control) && g.controlInformation == RESP_VARIABLE
       && HEADER_SIZE <= |g.data| <= MAX_DATA && g.data[..8] == d.address
       && Split(g.data + [0, 0], |g.data|, HEADER_SIZE).Some? && !Dangles(g.data + [0, 0], |g.data|, HEADER_SIZE)
  }

  /** Any finite set of good devices with distinct IDs. */
  ghost predicate GoodPopulation(ds: set<Device>) {
    && (forall d :: d in ds ==> GoodDevice(d))
    && (forall d, e :: d in ds && e in ds && d.address[..4] == e.address[..4] ==> d == e)
  }

  /** Every reply packed from a header with a decimal ID and from fixed width records makes a good
      device, for its first eight bytes as the address. */
  lemma PackedReplyIsGood(address: byte, h: Header, rs: seq<Record>)
    requires Portable(VariableData(h, rs, false))
    requires forall k :: 0 <= k < 8 ==> Nibble(PackVariable(h, rs)[..8], k) < 10
    ensures
      var d := VariableData(h, rs, false);
      GoodDevice(Device(PackData(d)[..8], Telegram.Wire(Sealed(Reply(address, d)))))
  {
    var d := VariableData(h, rs, false);
    ReplyRoundTrip(address, d, Blank, [0, 0]);
    ParseUndoesPack(Reply(address, d), Blank);
    PackedIsTelegram(Reply(address, d));
    ParseUndoesPackVariable(h, rs, [0, 0]);
    NothingDangles(PackData(d) + [0, 0], |PackData(d)|);
  }

  lemma NothingDangles(mem: seq<byte>, size: nat)
    requires size + 2 <= |mem| && mem[size] == 0 && Split(mem, size, HEADER_SIZE).Some?
    ensures !Dangles(mem, size, HEADER_SIZE)
  {
    if Dangles(mem, size, HEADER_SIZE) {
      DanglingReadsAStaleByte(mem, size, HEADER_SIZE);
    }
  }

  predicate DigitMatches(wanted: nat, digit: nat) {
    wanted == 15 || wanted == digit
  }

  predicate ByteMatches(wanted: byte, b: byte) {
    wanted == 0xFF || wanted == b
  }

  /** Section 7.1 of "The M-Bus: A Documentation": an ID digit F and a byte FF match anything. */
  predicate Selects(sel: seq<byte>, address: seq<byte>)
    requires |sel| == 8 && |address| >= 8
  {
    && (forall k :: 0 <= k < 8 ==> DigitMatches(Nibble(sel, k), Nibble(address, k)))
    && (forall j :: 4 <= j < 8 ==> ByteMatches(sel[j], address[j]))
  }

  function Chosen(ds: set<Device>, sel: seq<byte>): set<Device>
    requires |sel| == 8
  {
    set d | d in ds && |d.address| >= 8 && Selects(sel, d.address)
  }

  /** The devices that a mask matches. */
  function Matching(ds: set<Device>, mask: string): set<Device>
    requires IsSecondaryAddress(mask)
  {
    Chosen(ds, SelectData(mask))
  }

  ghost function TheOne(ds: set<Device>): Device
    requires |ds| == 1
    ensures TheOne(ds) in ds && ds == {TheOne(ds)}
  {
    var d :| d in ds;
    assert ds == {d} by {
      assert |ds - {d}| == 0;
      assert ds == ds - {d} + {d};
    }
    d
  }

  /** A reply telegram renders as the device's address, whatever lies behind the frame's data. */
  lemma DeviceAddress(d: Device, mem: seq<byte>)
    requires GoodDevice(d)
    requires |Payload(d).data| + 2 <= |mem| && mem[..|Payload(d).data|] == Payload(d).data
    ensures AddressOf(Payload(d).control, RESP_VARIABLE, mem, |Payload(d).data|) == Some(RenderBytes(d.address))
  {
    var g := Payload(d);
    var size := |g.data|;
    AddressOfVariable(g.control, mem, size);
    assert (g.data + [0, 0])[..size] == g.data;
    StaleBytesDoNotMatter(g.data + [0, 0], mem, size, HEADER_SIZE);
    assert mem[..8] == mem[..size][..8] == d.address;
    SameAddressBytes(mem, d.address);
  }

  lemma SameAddressBytes(mem: seq<byte>, address: seq<byte>)
    requires |mem| >= 8 && mem[..8] == address
    ensures RenderBytes(mem) == RenderBytes(address)
  {
    assert mem[..4] == mem[..8][..4] && mem[4..6] == mem[..8][4..6];
    assert mem[6] == mem[..8][6] && mem[7] == mem[..8][7];
  }

  // ---------------------------------------------------------------- requests

  datatype Request = Select(data: seq<byte>) | ReadOut | Other

  const REQ_UD2: byte := 0x5B

  /** How a slave takes a telegram. */
  function RequestOf(telegram: seq<byte>): (r: Request)
    ensures r.Select? ==> |r.data| == 8
  {
    var p := Parse(Blank, telegram);
    var f := p.fields;
    if p.code == 0 && f.kind == Long && f.control == SELECT_CONTROL && f.address == NETWORK_LAYER
       && f.controlInformation == SELECT_SLAVE && |f.data| == 8 then Select(f.data)
    else if p.code == 0 && f.kind == Short && f.control == REQ_UD2 && f.address == NETWORK_LAYER then ReadOut
    else Other
  }

  /** Bytes on the line when each of `ds` sends its reply: one reply arrives, several collide. */
  ghost function OnLine(ds: set<Device>, reply: Device -> seq<byte>, noise: seq<byte>): seq<byte> {
    if ds == {} then [] else if |ds| == 1 then reply(TheOne(ds)) else noise
  }

  function Acknowledge(d: Device): seq<byte> {
    [ACK_START]
  }

  function SendData(d: Device): seq<byte> {
    d.telegram
  }

  /** The telegram of a select for an address or mask. */
  function SelectFields(mask: string): Fields
    requires IsSecondaryAddress(mask)
  {
    NewFields(Long).(control := SELECT_CONTROL, address := NETWORK_LAYER,
                     controlInformation := SELECT_SLAVE, data := SelectData(mask))
  }

  const RequestFields: Fields := NewFields(Short).(control := REQ_UD2, address := NETWORK_LAYER)

  lemma SelectArrives(mask: string)
    requires IsSecondaryAddress(mask)
    ensures Sendable(SelectFields(mask))
    ensures RequestOf(Telegram.Wire(Sealed(SelectFields(mask)))) == Select(SelectData(mask))
  {
    ParseUndoesPack(SelectFields(mask), Blank);
  }

  lemma ReadOutArrives()
    ensures Sendable(RequestFields) && RequestOf(Telegram.Wire(Sealed(RequestFields))) == ReadOut
  {
    ParseUndoesPack(RequestFields, Blank);
  }

  lemma LongTelegram(f: Fields)
    requires f.kind == Long && |f.data| == 8 && f == NewFields(Long).(control := f.control, address := f.address,
                                                        controlInformation := f.controlInformation, data := f.data)
    ensures
      var sum := (f.control + f.address + f.controlInformation + Sum(f.data)) % 0x100;
      Telegram.Wire(Sealed(f)) ==
        [0x68, 0x0B, 0x0B, 0x68, f.control, f.address, f.controlInformation] + f.data + [sum, 0x16]
  {
  }

  /** The select telegram on the wire: SND_UD with its frame count bit, the network layer's address, and the
      CI byte of a select. */
  lemma SelectTelegram(mask: string)
    requires IsSecondaryAddress(mask)
    ensures
      var sum := (0x73 + 0xFD + 0x52 + Sum(SelectData(mask))) % 0x100;
      Telegram.Wire(Sealed(SelectFields(mask))) ==
        [0x68, 0x0B, 0x0B, 0x68, 0x73, 0xFD, 0x52] + SelectData(mask) + [sum, 0x16]
  {
    LongTelegram(SelectFields(mask));
  }

  /** The data request to the network layer's address on the wire. */
  lemma DataRequestTelegram()
    ensures Telegram.Wire(Sealed(RequestFields)) == [0x10, 0x5B, 0xFD, 0x58, 0x16]
  {
  }

  /** What cannot be a lone telegram. */
  predicate Collides(s: seq<byte>) {
    s != [] && (Outcome(s) != RecvOk || End(s) < |s|)
  }

  /** An ideal bus: every telegram of the master arrives, and one answer arrives unchanged. Several
      acknowledgements overlap into a collision or into something like one of them, several data
      telegrams never into one. */
  class Bus {
    const devices: set<Device>
    const port: Port
    /** What several acknowledgements sound like, by telegram number. */
    const ackNoise: nat -> seq<byte>
    /** What several data telegrams sound like. */
    const noise: nat -> seq<byte>
    var selected: set<Device>
    var sent: nat
    /** How many select telegrams were sent. */
    ghost var selects: nat

    ghost predicate Valid() {
      && GoodPopulation(devices) && port.Prompt()
      && (forall k {:trigger Classify(ackNoise(k))} ::
            Classify(ackNoise(k)) == Single || Classify(ackNoise(k)) == Collision)
      && (forall k {:trigger Collides(noise(k))} :: Collides(noise(k)))
    }

    constructor (devices: set<Device>, port: Port, ackNoise: nat -> seq<byte>, noise: nat -> seq<byte>)
      requires GoodPopulation(devices) && port.Prompt()
      requires forall k {:trigger Classify(ackNoise(k))} ::
                 Classify(ackNoise(k)) == Single || Classify(ackNoise(k)) == Collision
      requires forall k {:trigger Collides(noise(k))} :: Collides(noise(k))
      ensures Valid() && this.devices == devices && this.port == port
    {
      this.devices, this.port, this.ackNoise, this.noise := devices, port, ackNoise, noise;
      selected, sent, selects := {}, 0, 0;
    }

    /** A telegram of the master goes out; the answers come in. */
    method Transmit(telegram: seq<byte>)
      requires Valid()
      modifies this, port`incoming
      ensures sent == old(sent) + 1
      ensures match RequestOf(telegram)
              case Select(sel) =>
                && selected == Chosen(devices, sel) && selects == old(selects) + 1
                && port.incoming == old(port.incoming) + OnLine(selected, Acknowledge, ackNoise(old(sent)))
              case ReadOut =>
                && selected == old(selected) && selects == old(selects)
                && port.incoming == old(port.incoming) + OnLine(selected, SendData, noise(old(sent)))
              case Other =>
                selected == old(selected) && selects == old(selects) && port.incoming == old(port.incoming)
    {
      var request := RequestOf(telegram);
      if request.Select? {
        selected := Chosen(devices, request.data);
        selects := selects + 1;
      }
      if request != Other && selected != {} {
        var answer := if request.Select? then ackNoise(sent) else noise(sent);
        if |selected| == 1 {
          var d :| d in selected;
          assert selected == {d} by {
            assert d == TheOne(selected);
          }
          answer := if request.Select? then Acknowledge(d) else SendData(d);
        }
        port.incoming := port.incoming + answer;
      }
      sent := sent + 1;
    }
  }
}
