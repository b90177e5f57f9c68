/** Readouts of more than one telegram: which reply announces another, and a call that takes two. */
module ReadoutInstances {
  import opened Bytes
  import opened Telegram
  import opened FrameBuffer
  import opened Records
  import opened RecordLaws
  import opened RecordGrammar
  import opened Application
  import opened Bus
  import opened SlaveLink
  import opened ReadoutMaster
  import opened Instances
  import Readout

  // ---------------------------------------------------------------- a reply that announces another

  const MoreBlock: Parts := Parts([0x1F], [], [], [], [])

  /** A reply with a header, fixed width records, and DIF 1F as the last byte. */
  function AnnouncingReply(address: byte, h: Header, rs: seq<Record>): Fields {
    NewFields(Long).(control := 8, address := address, controlInformation := 0x72, data := PackVariable(h, rs) + [0x1F])
  }

  lemma AnnouncingData(h: Header, rs: seq<Record>, d: seq<byte>)
    requires GoodHeader(h) && (forall r :: r in rs ==> FixedWidth(r)) && d == PackVariable(h, rs) + [0x1F]
    ensures |d| > HEADER_SIZE && !Dangles(d + [0, 0], |d|, HEADER_SIZE)
    ensures DataParse(8, 0x72, d + [0, 0], |d|) == Some(VariableData(h, rs + [Record(0x1F, [], 0, [], [], [])], true))
  {
    var mem := d + [0, 0];
    assert WireOf(MoreBlock) == [0x1F];
    ParsesTail(h, rs, MoreBlock, d, PiecesOf(rs) + [Rec(MoreBlock)], [0, 0]);
    NothingDangles(mem, |d|);
  }

  /** Any such reply announces another telegram, and its records are those that were packed. */
  lemma AnnouncingReplyIsRead(address: byte, h: Header, rs: seq<Record>)
    requires GoodHeader(h) && (forall r :: r in rs ==> FixedWidth(r)) && |PackVariable(h, rs)| < MAX_DATA
    ensures
      var t := Wire(Sealed(AnnouncingReply(address, h, rs)));
      var d := t[7..|t| - 2];
      && GoodReply(t) && ContentOf(t) == Readout.More
      && d == PackVariable(h, rs) + [0x1F] && t[4] == 8 && t[6] == 0x72
      && DataParse(8, 0x72, d + [0, 0], |d|) == Some(VariableData(h, rs + [Record(0x1F, [], 0, [], [], [])], true))
  {
    var f := AnnouncingReply(address, h, rs);
    var t := Wire(Sealed(f));
    PackedIsTelegram(f);
    LongOnWire(Sealed(f));
    AnnouncingData(h, rs, f.data);
    assert ReplyFields(t).data == f.data;
  }

  function Simple(dif: byte, vif: byte, data: seq<byte>): Record {
    Record(dif, [], vif, [], [], data)
  }

  lemma SimpleIsFixed(dif: byte, vif: byte, data: seq<byte>)
    requires dif < 0x80 && dif != 0x2F && dif != 0x0F && dif != 0x1F && dif % 0x10 != 0x0D && vif < 0x7C
    requires HasWidth(dif % 0x10, |data|)
    ensures FixedWidth(Simple(dif, vif, data))
  {
    OrdinaryPartsExactly(PartsOf(Simple(dif, vif, data)), 0);
  }

  lemma PackOne(r: Record, rs: seq<Record>)
    ensures PackRecords([r] + rs) == PackRecord(r) + PackRecords(rs)
  {
    assert ([r] + rs)[1..] == rs;
  }

  const SensusHeader: Header := Header([0x95, 0x50, 0x26, 0x21], [0xAE, 0x4C], 0x0E, 0x04, 0xB5, 0x10, [0, 0])

  function Zero(): seq<byte> {
    [0, 0, 0, 0]
  }

  function Number(): seq<byte> {
    [0x95, 0x50, 0x26, 0x21]
  }

  lemma PackTwo(a: Record, b: Record)
    ensures PackRecords([a, b]) == PackRecord(a) + PackRecord(b)
  {
    PackOne(a, [b]);
    PackOne(b, []);
    assert [a, b] == [a] + [b] && [b] == [b] + [];
    assert PackRecord(b) + [] == PackRecord(b);
  }

  /** Energy and volume, flow and power: all zero. */
  function SensusTotals(): seq<Record> {
    [Simple(0x0C, 0x06, Zero()), Simple(0x0C, 0x13, Zero())]
  }

  function SensusRates(): seq<Record> {
    [Simple(0x0C, 0x3B, Zero()), Simple(0x0C, 0x2B, Zero())]
  }

  /** Two temperatures of 16 bits. */
  function SensusTemperatures(): seq<Record> {
    [Simple(0x02, 0x5A, [0xC9, 0]), Simple(0x02, 0x5E, [0xCA, 0])]
  }

  /** A difference of 24 bits, and the number of the meter. */
  function SensusDifference(): seq<Record> {
    [Simple(0x03, 0x60, [0, 0, 0]), Simple(0x0C, 0x78, Number())]
  }

  /** The number again, with an extended VIF. */
  function SensusNumber(): seq<Record> {
    [Record(0x0C, [], 0xFD, [0x10], [], Number())]
  }

  function SensusRecords(): seq<Record> {
    SensusTotals() + SensusRates() + SensusTemperatures() + SensusDifference() + SensusNumber()
  }

  lemma PairIsFixed(dif: byte, a: byte, x: seq<byte>, dif': byte, b: byte, y: seq<byte>)
    requires dif in {2, 3, 12} && dif' in {2, 3, 12} && a < 0x7C && b < 0x7C
    requires HasWidth(dif, |x|) && HasWidth(dif', |y|)
    ensures
      var rs := [Simple(dif, a, x), Simple(dif', b, y)];
      (forall r :: r in rs ==> FixedWidth(r)) && PackRecords(rs) == [dif, a] + x + ([dif', b] + y)
  {
    SimpleIsFixed(dif, a, x);
    SimpleIsFixed(dif', b, y);
    PackTwo(Simple(dif, a, x), Simple(dif', b, y));
    PackSimple(dif, a, x);
    PackSimple(dif', b, y);
  }

  lemma PackSimple(dif: byte, vif: byte, data: seq<byte>)
    ensures PackRecord(Simple(dif, vif, data)) == [dif, vif] + data
  {
  }

  lemma NumberIsFixed()
    ensures forall r :: r in SensusNumber() ==> FixedWidth(r)
    ensures PackRecords(SensusNumber()) == [0x0C, 0xFD, 0x10] + Number()
  {
    var r := Record(0x0C, [], 0xFD, [0x10], [], Number());
    OrdinaryPartsExactly(PartsOf(r), 0);
    PackOne(r, []);
    assert SensusNumber() == [r] + [];
  }

  /** The bytes of the records. */
  function SensusBytes(): seq<byte> {
    [0x0C, 0x06] + Zero() + ([0x0C, 0x13] + Zero())
    + ([0x0C, 0x3B] + Zero() + ([0x0C, 0x2B] + Zero()))
    + ([0x02, 0x5A] + [0xC9, 0] + ([0x02, 0x5E] + [0xCA, 0]))
    + ([0x03, 0x60] + [0, 0, 0] + ([0x0C, 0x78] + Number()))
    + ([0x0C, 0xFD, 0x10] + Number())
  }

  lemma PackFive(a: seq<Record>, b: seq<Record>, c: seq<Record>, d: seq<Record>, e: seq<Record>)
    ensures PackRecords(a + b + c + d + e) ==
            PackRecords(a) + PackRecords(b) + PackRecords(c) + PackRecords(d) + PackRecords(e)
  {
    PackAppend(a, b);
    PackAppend(a + b, c);
    PackAppend(a + b + c, d);
    PackAppend(a + b + c + d, e);
  }

  lemma SensusRecordsAreFixed()
    ensures forall r :: r in SensusRecords() ==> FixedWidth(r)
    ensures PackRecords(SensusRecords()) == SensusBytes() && |SensusBytes()| == 50
  {
    PairIsFixed(0x0C, 0x06, Zero(), 0x0C, 0x13, Zero());
    PairIsFixed(0x0C, 0x3B, Zero(), 0x0C, 0x2B, Zero());
    PairIsFixed(0x02, 0x5A, [0xC9, 0], 0x02, 0x5E, [0xCA, 0]);
    PairIsFixed(0x03, 0x60, [0, 0, 0], 0x0C, 0x78, Number());
    NumberIsFixed();
    PackFive(SensusTotals(), SensusRates(), SensusTemperatures(), SensusDifference(), SensusNumber());
  }

  function SensusReply(address: byte): seq<byte> {
    Wire(Sealed(AnnouncingReply(address, SensusHeader, SensusRecords())))
  }

  /** The data of test/test-frames/SEN_Sensus-PolluStat-E.hex: ten records, and another telegram follows. */
  lemma SensusIsRead(address: byte)
    ensures
      var t := SensusReply(address);
      && GoodReply(t) && ContentOf(t) == Readout.More
      && t[7..|t| - 2] ==
           [0x95, 0x50, 0x26, 0x21, 0xAE, 0x4C, 0x0E, 0x04, 0xB5, 0x10, 0, 0] + SensusBytes() + [0x1F]
  {
    SensusRecordsAreFixed();
    SensusFits();
    AnnouncingReplyIsRead(address, SensusHeader, SensusRecords());
  }

  lemma SensusFits()
    ensures GoodHeader(SensusHeader)
    ensures HeaderBytes(SensusHeader) == [0x95, 0x50, 0x26, 0x21, 0xAE, 0x4C, 0x0E, 0x04, 0xB5, 0x10, 0, 0]
  {
  }

  // ---------------------------------------------------------------- two telegrams are taken

  /** The slave's next telegram announces another one, which is the last; both arrive. */
  ghost predicate TwoAreSent(link: Link, plan: Plan) {
    && plan.setup.maxFrames >= 2 && plan.setup.content == link.content
    && link.fate(plan.from) == SlaveLink.Delivered && link.fate(plan.from + 1) == SlaveLink.Delivered
    && ContentOf(link.telegram(plan.setup.first)) == Readout.More
    && ContentOf(link.telegram(plan.setup.first + 1)) == Readout.Last
  }

  lemma ContentThere(link: Link, k: nat)
    requires link.Valid()
    ensures link.content(k) == ContentOf(link.telegram(k))
  {
  }

  lemma TwoSteps(c: Readout.Setup, s: Readout.State, t: Readout.State)
    requires s == Readout.Step(c, Readout.Start(c), Readout.Delivered) && t == Readout.Step(c, s, Readout.Delivered)
    requires c.maxFrames >= 2 && c.content(c.first) == Readout.More && c.content(c.first + 1) == Readout.Last
    ensures s.status == Readout.Running
    ensures t.status == Readout.Complete && t.taken == [Readout.Reply(c.first), Readout.Reply(c.first + 1)]
  {
    var one, two := Readout.Reply(c.first), Readout.Reply(c.first + 1);
    assert [one] + [two] == [one, two];
  }

  lemma {:induction false} StaysStopped(link: Link, plan: Plan, im: Image, from: nat, n: nat)
    requires IsCourse(link, plan, im) && plan.StateAt(from).status != Readout.Running && from <= n
    ensures plan.StateAt(n) == plan.StateAt(from)
    decreases n
  {
    if from < n {
      StaysStopped(link, plan, im, from, n - 1);
      NextEntry(link, plan, im, n - 1);
    }
  }

  lemma TwoEntries(link: Link, plan: Plan, im: Image, second: nat)
    requires IsCourse(link, plan, im) && plan.setup.maxFrames >= 2 && second == 2
    requires link.fate(plan.from) == SlaveLink.Delivered && link.fate(plan.from + 1) == SlaveLink.Delivered
    requires plan.setup.content(plan.setup.first) == Readout.More
    requires plan.setup.content(plan.setup.first + 1) == Readout.Last
    ensures forall k :: 0 <= k < 2 ==> plan.StateAt(k).status == Readout.Running
    ensures TookTwo(plan.setup, plan.StateAt(second))
  {
    NextEntry(link, plan, im, 0);
    NextEntry(link, plan, im, 1);
    TwoSteps(plan.setup, plan.StateAt(1), plan.StateAt(2));
    forall k | 0 <= k < 2 ensures plan.StateAt(k).status == Readout.Running {
      assert k == 0 || k == 1;
    }
  }

  /** The readout is complete with the first two telegrams. */
  predicate TookTwo(c: Readout.Setup, s: Readout.State) {
    s.status == Readout.Complete && s.taken == [Readout.Reply(c.first), Readout.Reply(c.first + 1)]
  }

  /** A call that stops has taken both telegrams, in order. */
  lemma TwoAreTaken(link: Link, plan: Plan, im: Image, n: nat)
    requires link.Valid() && IsCourse(link, plan, im) && TwoAreSent(link, plan)
    requires plan.StateAt(n).status != Readout.Running
    ensures n >= 2 && TookTwo(plan.setup, plan.StateAt(n))
  {
    ContentThere(link, plan.setup.first);
    ContentThere(link, plan.setup.first + 1);
    TwoEntries(link, plan, im, 2);
    if n >= 2 {
      StaysStopped(link, plan, im, 2, n);
    }
  }

  /** A frame with the fields of the slave's telegram `k`. */
  ghost predicate HoldsTelegram(link: Link, frame: Frame, k: nat)
    reads frame, frame.data
  {
    frame.Valid() && |link.telegram(k)| >= 9 && frame.View() == ReplyFields(link.telegram(k))
  }

  /** What mbus_sendrecv_request leaves that has taken both: a chain of two frames, the caller's and a second
      one, with the fields of both telegrams. */
  lemma TwoFramesAreFilled(link: Link, plan: Plan, final: Progress)
    requires TookTwo(plan.setup, final.state)
    requires ReadoutMaster.Chain(final.frames, final.state.taken, final.rest, link, final.used)
    requires StartsWith(final.frames, final.rest, plan.reply) && final.rest == null
    ensures |final.frames| == 2
    ensures
      var one, two, first := final.frames[0], final.frames[1], plan.setup.first;
      && one == plan.reply && one != two && one.next == two && two.next == null
      && HoldsTelegram(link, one, first) && HoldsTelegram(link, two, first + 1)
  {
    ChainHolds(final.frames, final.state.taken, final.rest, link, final.used);
    assert Holds(link, final.frames[0].Snapshot(), final.state.taken[0]);
    assert Holds(link, final.frames[1].Snapshot(), final.state.taken[1]);
  }

  lemma CounterIsLast(v: byte)
    ensures GoodReply(CounterReply(v)) && ContentOf(CounterReply(v)) == Readout.Last
  {
    var t := CounterReply(v);
    CounterTelegram(v, v);
    CounterData(v);
    DataComesBack(Counter(v), [0, 0]);
    LongOnWire(Sealed(Reply(1, Counter(v))));
    assert ReplyFields(t).data == PackData(Counter(v));
    NothingDangles(PackData(Counter(v)) + [0, 0], |PackData(Counter(v))|);
  }

  /** The meter that sends the data of the Sensus telegram first and then a counter: a call that reads up
      to two telegrams or more takes both. */
  lemma SensusAndCounterAreTaken(address: byte, v: byte, link: Link, plan: Plan, im: Image, n: nat)
    requires link.Valid() && IsCourse(link, plan, im) && plan.setup.content == link.content && plan.setup.maxFrames >= 2
    requires link.fate(plan.from) == SlaveLink.Delivered && link.fate(plan.from + 1) == SlaveLink.Delivered
    requires link.telegram(plan.setup.first) == SensusReply(address)
    requires link.telegram(plan.setup.first + 1) == CounterReply(v)
    requires plan.StateAt(n).status != Readout.Running
    ensures n >= 2 && TookTwo(plan.setup, plan.StateAt(n))
  {
    SensusIsRead(address);
    CounterIsLast(v);
    TwoAreTaken(link, plan, im, n);
  }
}
