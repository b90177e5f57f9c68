/** Concrete inputs on which the code does less than its documentation or its other half promises. */
module Instances {
  import opened Bytes
  import opened Telegram
  import opened Records
  import opened RecordLaws
  import opened Application
  import opened SecondaryAddress
  import opened Bus
  import opened Scan
  import opened ScanLimits
  import opened FrameBuffer
  import opened Framing
  import opened SlaveLink
  import opened ReadoutMaster
  import Readout

  // ---------------------------------------------------------------- masks and devices

  /** FFFFFFFFFFFFFFFF. */
  predicate IsAllWild(mask: string) {
    |mask| == ADDRESS_LENGTH && forall k :: 0 <= k < ADDRESS_LENGTH ==> mask[k] == 'F'
  }

  /** 0000000nFcFFFFFF for a digit n and a character c. */
  predicate IsFullId(mask: string, id: byte, c: char) {
    && |mask| == ADDRESS_LENGTH && id < 10 && IsHexDigit(c)
    && (forall k :: 0 <= k < 7 ==> mask[k] == '0') && mask[7] == (48 + id) as char
    && (forall k :: 8 <= k < ADDRESS_LENGTH && k != 9 ==> mask[k] == 'F') && mask[9] == c
  }

  /** A meter without records, with manufacturer bytes 24 23, version 1 and medium 7. */
  function MeterData(id: byte): FrameData {
    VariableData(Header([id, 0, 0, 0], [0x24, 0x23], 1, 7, 0, 0, [0, 0]), [], false)
  }

  function Meter(id: byte): Device {
    Device(PackData(MeterData(id))[..8], Telegram.Wire(Sealed(Reply(1, MeterData(id)))))
  }

  lemma MeterIsGood(id: byte)
    requires id < 10
    ensures Meter(id).address == [id, 0, 0, 0, 0x24, 0x23, 1, 7]
    ensures GoodDevice(Meter(id))
  {
    var d := MeterData(id);
    assert PackData(d)[..8] == [id, 0, 0, 0, 0x24, 0x23, 1, 7];
    PackedReplyIsGood(1, d.header, []);
  }

  lemma MeterDigits(d: Device, id: byte)
    requires id < 10 && d.address == [id, 0, 0, 0, 0x24, 0x23, 1, 7]
    ensures forall k :: 0 <= k < 7 ==> Digit(d, k) == 0
    ensures Digit(d, 7) == id && Digit(d, 8) == 2 && Digit(d, 9) == 4
  {
    assert InOrder(d.address) == [0, 0, 0, id, 0x24, 0x23, 1, 7];
    assert forall k :: 0 <= k < 3 ==> InOrder(d.address)[k] == 0;
    assert forall k :: 0 <= k < 6 ==> Digit(d, k) == 0;
  }

  lemma WildByte(mask: string, d: Device, j: nat)
    requires IsSecondaryAddress(mask) && 4 <= j < 8 && IsWild(mask[2 * j]) && IsWild(mask[2 * j + 1])
    requires |d.address| >= 8
    ensures ByteMatches(SelectData(mask)[j], d.address[j])
  {
    TailByte(mask, d, 2 * j);
  }

  // ---------------------------------------------------------------- the callback

  lemma PopulationOfTwo(d: Device, e: Device)
    requires GoodDevice(d) && GoodDevice(e) && d.address[0] != e.address[0]
    ensures GoodPopulation({d, e})
  {
    assert d.address[..4][0] != e.address[..4][0];
  }

  lemma TwoMeters(a: byte, b: byte)
    requires a < 10 && b < 10 && a != b
    ensures GoodPopulation({Meter(a), Meter(b)}) && Meter(a) != Meter(b)
    ensures Digit(Meter(a), 0) == 0 == Digit(Meter(b), 0)
  {
    var d, e := Meter(a), Meter(b);
    MeterIsGood(a);
    MeterIsGood(b);
    MeterDigits(d, a);
    MeterDigits(e, b);
    PopulationOfTwo(d, e);
  }

  lemma NoneAlone(d: Device, e: Device)
    requires d != e && Digit(d, 0) == Digit(e, 0)
    ensures |{d, e}| == 2 && Alone({d, e}, 0) == {}
  {
    assert At({d, e}, 0, Digit(d, 0)) == {d, e};
  }

  /** Any two such meters share their first digit: both match, and a callback hears of neither. */
  lemma CallbackHearsNothing(a: byte, b: byte, c: Setup, mask: string, cb: Callback)
    requires a < 10 && b < 10 && a != b && c.devices == {Meter(a), Meter(b)} && IsAllWild(mask) && NeverStops(cb)
    ensures GoodMask(mask, 0) && GoodPopulation(c.devices)
    ensures Matching(c.devices, mask) == c.devices && |c.devices| == 2
    ensures Own(Search(c, 0, mask, cb).hits) == {}
  {
    TwoMeters(a, b);
    NoneAlone(Meter(a), Meter(b));
    AllHexFrom(mask);
    AllMatch(c.devices, mask);
    CallbackHearsExactly(c, 0, mask, cb);
  }

  lemma AllMatch(ds: set<Device>, mask: string)
    requires GoodPopulation(ds) && IsSecondaryAddress(mask) && IsAllWild(mask)
    ensures Matching(ds, mask) == ds
  {
    forall d | d in ds ensures d in Matching(ds, mask) {
      assert GoodDevice(d);
      forall j | 4 <= j < 8 ensures ByteMatches(SelectData(mask)[j], d.address[j]) {
        WildByte(mask, d, j);
      }
      MatchesByDigits(ds, mask, d);
    }
  }

  // ---------------------------------------------------------------- masks with a full ID

  lemma FullIdIsGood(mask: string, id: byte, c: char)
    requires IsFullId(mask, id, c)
    ensures GoodMask(mask, 8) && CharNibble(mask, 9) == HexValue(c)
    ensures forall k :: 0 <= k < 7 ==> CharNibble(mask, k) == 0
    ensures CharNibble(mask, 7) == id
  {
    forall k | 0 <= k < |mask| ensures IsHexDigit(mask[k]) {
    }
    AllHexFrom(mask);
  }

  lemma {:induction false} FirstWildIsEight(mask: string, pos: nat)
    requires |mask| == ADDRESS_LENGTH && pos <= 8 && IsWild(mask[8]) && forall k :: 0 <= k < 8 ==> !IsWild(mask[k])
    ensures FirstWild(mask, pos) == 8
    decreases 8 - pos
  {
    if pos < 8 {
      FirstWildIsEight(mask, pos + 1);
    }
  }

  lemma MeterIsCandidate(ds: set<Device>, mask: string, id: byte, c: char, d: Device)
    requires IsFullId(mask, id, c) && IsSecondaryAddress(mask)
    requires d.address == [id, 0, 0, 0, 0x24, 0x23, 1, 7] && d in ds
    ensures d in Candidates(ds, mask, 8)
  {
    FullIdIsGood(mask, id, c);
    MeterDigits(d, id);
    forall j | 4 <= j < 8 && j != 4 ensures ByteMatches(SelectData(mask)[j], d.address[j]) {
      assert mask[2 * j] == 'F' && mask[2 * j + 1] == 'F';
      WildByte(mask, d, j);
    }
    assert OthersMatch(mask, 8, d);
    assert IdMatches(mask, d);
  }

  /** The meter matches its own ID followed by wildcards, and is not found. */
  lemma FullIdIsMissed(id: byte, c: Setup, mask: string, cb: Callback)
    requires id < 10 && c.devices == {Meter(id)} && IsFullId(mask, id, 'F') && NeverStops(cb)
    ensures GoodMask(mask, 8) && GoodPopulation(c.devices) && Matching(c.devices, mask) == c.devices
    ensures Search(c, 0, mask, cb).hits == []
  {
    var d := Meter(id);
    MeterIsGood(id);
    FullIdIsGood(mask, id, 'F');
    FirstWildIsEight(mask, 0);
    MeterDigits(d, id);
    MeterIsCandidate(c.devices, mask, id, 'F', d);
    MatchesAsCandidate(c.devices, mask, 8, d);
    WildByte(mask, d, 4);
    FullIdDelivers(c, 0, mask, cb);
    assert Found(c.devices, mask, 8) == {};
    NoHits(Search(c, 0, mask, cb).hits);
  }

  lemma NoHits(hits: seq<Hit>)
    requires ExactlyOnce(hits, {})
    ensures hits == []
  {
    if hits != [] {
      assert hits[0].device in multiset(DevicesOf(hits));
      assert false;
    }
  }

  /** The meter does not match its own ID followed by F4 and wildcards, and is found. */
  lemma StrangerIsReported(id: byte, c: Setup, mask: string, cb: Callback)
    requires id < 10 && c.devices == {Meter(id)} && IsFullId(mask, id, '4') && NeverStops(cb)
    ensures GoodMask(mask, 8) && GoodPopulation(c.devices) && Matching(c.devices, mask) == {}
    ensures ExactlyOnce(Search(c, 0, mask, cb).hits, c.devices)
  {
    MeterIsGood(id);
    FullIdIsGood(mask, id, '4');
    FirstWildIsEight(mask, 0);
    OneStranger(id, c.devices, mask, Meter(id));
    FullIdDelivers(c, 0, mask, cb);
  }

  lemma OneStranger(id: byte, ds: set<Device>, mask: string, d: Device)
    requires id < 10 && d.address == [id, 0, 0, 0, 0x24, 0x23, 1, 7] && ds == {d} && GoodPopulation(ds)
    requires IsFullId(mask, id, '4') && IsSecondaryAddress(mask)
    ensures Matching(ds, mask) == {} && Found(ds, mask, 8) == ds
  {
    FullIdIsGood(mask, id, '4');
    MeterDigits(d, id);
    MeterIsCandidate(ds, mask, id, '4', d);
    MatchesAsCandidate(ds, mask, 8, d);
    TailByte(mask, d, 8);
    IdCharacter(mask, 8);
    assert d in Found(ds, mask, 8);
  }

  // ---------------------------------------------------------------- bytes behind the data

  const DanglingData: seq<byte> := [1, 0, 0, 0, 0x24, 0x23, 1, 7, 0, 0, 0, 0, 0x0D, 0x00]

  /** A header, DIF 0D and VIF 00: whether the data parses depends on the byte behind it. */
  lemma DanglingDataParsesByChance()
    ensures Dangles(DanglingData + [0, 0], 14, HEADER_SIZE)
    ensures Split(DanglingData + [0, 0], 14, HEADER_SIZE) == None
    ensures Split(DanglingData + [0xFF, 0], 14, HEADER_SIZE) != None
  {
    DanglingReadsAStaleByte(DanglingData + [0, 0], 14, HEADER_SIZE);
    DanglingReadsAStaleByte(DanglingData + [0xFF, 0], 14, HEADER_SIZE);
  }

  // ---------------------------------------------------------------- ID letters

  lemma LetterNibble(a: string, k: nat)
    requires IsSecondaryAddress(a) && k < 8 && a[k] == 'A'
    ensures CharNibble(a, k) == 1
  {
  }

  lemma LetterIsRendered(a: string, d: seq<byte>, k: nat)
    requires IsSecondaryAddress(a) && k < 8 && a[k] == 'A' && d == SelectData(a)
    ensures |RenderBytes(d)| == ADDRESS_LENGTH && RenderBytes(d)[k] == '1'
  {
    LetterNibble(a, k);
    SelectNibble(a, k);
    RenderedAt(d, k);
  }

  /** A valid address with the ID digit A comes back with the digit 1 in its place. */
  lemma IdLetterIsLost(a: string, k: nat)
    requires |a| == ADDRESS_LENGTH && (forall i :: 0 <= i < ADDRESS_LENGTH ==> IsHexDigit(a[i])) && k < 8 && a[k] == 'A'
    ensures IsSecondaryAddress(a) && |RenderBytes(SelectData(a))| == ADDRESS_LENGTH
    ensures RenderBytes(SelectData(a))[k] == '1'
  {
    AllHexFrom(a);
    LetterIsRendered(a, SelectData(a), k);
  }

  // ---------------------------------------------------------------- a rejected reply

  /** A meter that has counted to `v`: a header and one record of four bytes. */
  function Counter(v: byte): FrameData {
    var header := Header([1, 0, 0, 0], [0x24, 0x23], 1, 7, 0, 0, [0, 0]);
    VariableData(header, [Record(0x04, [], 0x13, [], [], [v, 0, 0, 0])], false)
  }

  function CounterReply(v: byte): seq<byte> {
    Telegram.Wire(Sealed(Reply(1, Counter(v))))
  }

  lemma CounterData(v: byte)
    ensures Portable(Counter(v))
    ensures PackData(Counter(v)) == [1, 0, 0, 0, 0x24, 0x23, 1, 7, 0, 0, 0, 0, 0x04, 0x13, v, 0, 0, 0]
  {
    var r := Record(0x04, [], 0x13, [], [], [v, 0, 0, 0]);
    assert PackRecord(r) == [0x04, 0x13, v, 0, 0, 0];
    assert [r][1..] == [];
    assert PackRecords([r]) == PackRecord(r);
    assert Records.Chain([0x04]);
    assert FixedWidth(r);
  }

  /** A stream whose first three bytes announce exactly its length is read to its end. */
  lemma ReadToItsEnd(s: seq<byte>)
    requires |s| >= 9 && s[0] == LONG_START && s[1] == s[2] == |s| - 6
    ensures End(s) == |s|
  {
    assert Code(s[..1]) == 2;
    assert Code(s[..3]) == |s| - 3;
    assert s[..|s|] == s;
    assert Code(s) <= 0;
    assert Cut(s, |s|) == |s|;
    assert Cut(s, 3) == |s|;
  }

  lemma AlteredIsRejected(t: seq<byte>, i: nat, b: byte)
    requires IsLong(t) && 7 <= i < |t| - 2 && b != t[i]
    ensures End(t[i := b]) == |t| && Outcome(t[i := b]) == RecvInvalid && NoTelegram(t[i := b])
  {
    var s := t[i := b];
    OneByteErrorExactly(t, i, b);
    ReadToItsEnd(s);
    assert s[..End(s)] == s;
    OutcomeOkExactly(s);
    forall u | IsShort(u) || IsLong(u) ensures !(u <= s) {
      assert IsTelegram(u);
    }
  }

  lemma LeadingAckIsAccepted(t: seq<byte>)
    requires t != []
    ensures
      var s := t[0 := ACK_START];
      s[..End(s)] == [ACK_START] && Outcome(s) == RecvOk && NoTelegram(s)
  {
    var s := t[0 := ACK_START];
    OutcomeOkExactly(s);
    assert s[..1] == [ACK_START];
  }

  /** The rejected bytes are in the frame. */
  lemma AlteredFills(t: seq<byte>, i: nat, b: byte, im: Image)
    requires IsLong(t) && 7 <= i < |t| - 2 && GoodImage(im)
    ensures
      var data, after := t[7..|t| - 2][i - 7 := b], AfterParse(im, t[i := b]);
      && GoodImage(after) && after.fields.data == data && after.mem == data + im.mem[|data|..]
      && after.fields.control == t[4] && after.fields.controlInformation == t[6]
  {
    var s, data := t[i := b], t[7..|t| - 2][i - 7 := b];
    assert s[7..|s| - 2] == data;
    AfterParseIsGood(im, s);
  }

  /** A reply with one changed data byte is rejected; when the next one comes with a leading E5, which is
      accepted, the frame still holds the control byte, the CI byte and the data of the first. */
  lemma RejectedReplyStays(t: seq<byte>, i: nat, b: byte, im: Image)
    requires IsLong(t) && 7 <= i < |t| - 2 && b != t[i] && GoodImage(im)
    ensures
      var first, second := t[i := b], t[0 := ACK_START];
      var held := AfterParse(im, first[..End(first)]);
      var stale := AfterParse(held, second[..End(second)]);
      var data := t[7..|t| - 2][i - 7 := b];
      && Outcome(first) == RecvInvalid && Outcome(second) == RecvOk
      && held.fields.data == data && ContentOfImage(stale) == ContentOfImage(held)
      && stale.fields.control == held.fields.control == t[4]
      && stale.fields.controlInformation == held.fields.controlInformation == t[6]
      && stale.fields.data == data && stale.mem == held.mem == data + im.mem[|data|..]
  {
    AlteredIsRejected(t, i, b);
    LeadingAckIsAccepted(t);
    assert t[i := b][..|t|] == t[i := b];
    AlteredFills(t, i, b, im);
    LeadingAckLeaves(AfterParse(im, t[i := b]));
    AfterParseIsGood(AfterParse(im, t[i := b]), [ACK_START]);
  }

  lemma CounterTelegram(v: byte, w: byte)
    ensures
      var t := CounterReply(v);
      && IsLong(t) && |t| == 27 && t[4] == RSP_UD && t[6] == RESP_VARIABLE && t[21] == v
      && t[7..|t| - 2][14 := w] == PackData(Counter(w))
  {
    CounterData(v);
    CounterData(w);
    PackedIsTelegram(Reply(1, Counter(v)));
    LongOnWire(Sealed(Reply(1, Counter(v))));
  }

  /** Two replies of a meter at `v`, the first with its data byte changed to `w`, the second with a leading
      E5: the master parses a meter at `w`. */
  lemma RejectedCountIsParsed(v: byte, w: byte, im: Image)
    requires v != w && GoodImage(im)
    ensures
      var t := CounterReply(v);
      var first, second := t[21 := w], t[0 := ACK_START];
      var held := AfterParse(im, first[..End(first)]);
      var stale := AfterParse(held, second[..End(second)]);
      && Outcome(first) == RecvInvalid && Outcome(second) == RecvOk && ContentOfImage(held) == Readout.Last
      && DataParse(stale.fields.control, stale.fields.controlInformation, stale.mem, |stale.fields.data|)
         == Some(Counter(w))
  {
    var t := CounterReply(v);
    var first, second := t[21 := w], t[0 := ACK_START];
    var held := AfterParse(im, first[..End(first)]);
    CounterTelegram(v, w);
    RejectedReplyStays(t, 21, w, im);
    HoldsCounter(w, im, held);
    HoldsCounter(w, im, AfterParse(held, second[..End(second)]));
  }

  lemma HoldsCounter(w: byte, before: Image, im: Image)
    requires GoodImage(before) && |im.fields.data| <= MAX_DATA && im.fields.data == PackData(Counter(w))
    requires im.mem == im.fields.data + before.mem[|im.fields.data|..]
    requires im.fields.control == RSP_UD && im.fields.controlInformation == RESP_VARIABLE
    ensures DataParse(im.fields.control, im.fields.controlInformation, im.mem, |im.fields.data|) == Some(Counter(w))
    ensures ContentOfImage(im) == Readout.Last
  {
    CounterData(w);
    CounterComesBack(w, im, before.mem[|im.fields.data|..]);
  }

  lemma CounterComesBack(w: byte, im: Image, behind: seq<byte>)
    requires |behind| >= 2 && im.mem == PackData(Counter(w)) + behind
    requires im.fields.data == PackData(Counter(w))
    requires im.fields.control == RSP_UD && im.fields.controlInformation == RESP_VARIABLE
    ensures DataParse(im.fields.control, im.fields.controlInformation, im.mem, |im.fields.data|) == Some(Counter(w))
    ensures ContentOfImage(im) == Readout.Last
  {
    CounterData(w);
    DataComesBack(Counter(w), behind);
  }

  /** With these two replies the call succeeds, and what it takes is no telegram of the slave. */
  lemma RejectedCountIsTaken(v: byte, w: byte, link: Link, plan: Plan, im: Image)
    requires v != w && link.Valid() && GoodImage(im) && IsCourse(link, plan, im) && plan.setup.maxRetry > 0
    requires link.fate(plan.from) == SlaveLink.Garbled && link.garbage(plan.from) == CounterReply(v)[21 := w]
    requires link.fate(plan.from + 1) == SlaveLink.Garbled
    requires link.garbage(plan.from + 1) == CounterReply(v)[0 := ACK_START]
    ensures plan.StateAt(2).status == Readout.Complete && plan.StateAt(2).taken == [Readout.Stale(Readout.Last)]
  {
    FirstFate(v, w, link, plan.from, im);
    SecondFate(v, link, plan.from + 1, plan.ImageAt(1));
    TwoFatesFail(link, plan, im);
  }

  lemma TwoFatesFail(link: Link, plan: Plan, im: Image)
    requires IsCourse(link, plan, im) && plan.setup.maxRetry > 0
    requires link.FateOf(plan.from, im) == Readout.Rejected(Readout.Last)
    requires link.FateOf(plan.from + 1, plan.ImageAt(1)) == Readout.LeadingAck
    ensures plan.StateAt(2).status == Readout.Complete && plan.StateAt(2).taken == [Readout.Stale(Readout.Last)]
  {
    TwoStepsFail(plan.setup, Readout.LeadingAck);
    NextEntry(link, plan, im, 0);
    NextEntry(link, plan, im, 1);
  }

  lemma FirstFate(v: byte, w: byte, link: Link, tick: nat, im: Image)
    requires v != w && GoodImage(im)
    requires link.fate(tick) == SlaveLink.Garbled && link.garbage(tick) == CounterReply(v)[21 := w]
    ensures link.FateOf(tick, im) == Readout.Rejected(Readout.Last)
  {
    RejectedCountIsParsed(v, w, im);
    CounterTelegram(v, w);
    assert link.garbage(tick)[0] == LONG_START;
  }

  lemma SecondFate(v: byte, link: Link, tick: nat, im: Image)
    requires link.fate(tick) == SlaveLink.Garbled && link.garbage(tick) == CounterReply(v)[0 := ACK_START]
    ensures link.FateOf(tick, im) == Readout.LeadingAck
  {
    assert link.garbage(tick)[0] == ACK_START;
  }

  lemma NextEntry(link: Link, plan: Plan, im: Image, n: nat)
    requires IsCourse(link, plan, im)
    ensures plan.StateAt(n + 1) ==
              Readout.Step(plan.setup, plan.StateAt(n), link.FateOf(plan.from + n, plan.ImageAt(n)))
  {
    assert NextAt(link, plan, n);
  }

  lemma TwoStepsFail(c: Readout.Setup, fate: Readout.Fate)
    requires c.maxRetry > 0
    ensures
      var one := Readout.Step(c, Readout.Start(c), Readout.Rejected(Readout.Last));
      fate == Readout.LeadingAck ==>
        && Readout.Step(c, one, fate).status == Readout.Complete
        && Readout.Step(c, one, fate).taken == [Readout.Stale(Readout.Last)]
  {
  }
}
