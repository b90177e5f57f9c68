/** The slave of a multi-telegram readout and the line to it, in bytes, and what both make of the frame
    that the master fills. */
module SlaveLink {
  import opened Bytes
  import opened Telegram
  import opened FrameBuffer
  import opened Framing
  import opened Port
  import opened Records
  import opened RecordLaws
  import opened Application
  import Readout

  const REQUEST_BIT_SET: byte := 0x7B
  const REQUEST_BIT_CLEARED: byte := 0x5B

  function RequestByte(bit: bool): byte {
    if bit then REQUEST_BIT_SET else REQUEST_BIT_CLEARED
  }

  function RequestTelegram(bit: bool, address: byte): Fields {
    NewFields(Short).(control := RequestByte(bit), address := address)
  }

  /** The frame count bit of a data request, if the telegram is one. */
  function BitOf(telegram: seq<byte>): Option<bool> {
    var p := Parse(Blank, telegram);
    if p.code == 0 && p.fields.kind == Short && p.fields.control in {REQUEST_BIT_SET, REQUEST_BIT_CLEARED}
    then Some(p.fields.control == REQUEST_BIT_SET) else None
  }

  lemma RequestArrives(bit: bool, address: byte)
    ensures Sendable(RequestTelegram(bit, address))
    ensures BitOf(Wire(Sealed(RequestTelegram(bit, address)))) == Some(bit)
    ensures |Wire(Sealed(RequestTelegram(bit, address)))| == 5
  {
    ParseUndoesPack(RequestTelegram(bit, address), Blank);
  }

  /** The request on the wire: REQ_UD2 with the frame count bit, 7B or 5B. */
  lemma RequestBytes(bit: bool, address: byte)
    ensures
      var control := if bit then 0x7B else 0x5B;
      Wire(Sealed(RequestTelegram(bit, address))) == [0x10, control, address, (control + address) % 0x100, 0x16]
  {
  }

  // ---------------------------------------------------------------- what a frame parses to

  function Verdict(data: Option<FrameData>): Readout.Content {
    match data
    case None => Readout.Bad
    case Some(VariableData(_, _, more)) => if more then Readout.More else Readout.Last
    case Some(_) => Readout.Last
  }

  /** What mbus_frame_data_parse makes of a frame, whatever its kind, and whether more is announced. */
  function ContentOfImage(im: Image): Readout.Content {
    var size := |im.fields.data|;
    if size + 2 > |im.mem| then Readout.Bad
    else Verdict(DataParse(im.fields.control, im.fields.controlInformation, im.mem, size))
  }

  function Zeros(n: nat): (s: seq<byte>)
    ensures |s| == n && forall k :: 0 <= k < n ==> s[k] == 0
  {
    if n == 0 then [] else Zeros(n - 1) + [0]
  }

  /** A new frame. */
  function BlankImage(): Image {
    Image(NewFields(AnyKind), Zeros(MAX_DATA + 2))
  }

  lemma BlankIsBad()
    ensures GoodImage(BlankImage()) && ContentOfImage(BlankImage()) == Readout.Bad
  {
  }

  /** The frame that a reply telegram parses to. */
  function ReplyFields(t: seq<byte>): Fields
    requires |t| >= 9
  {
    LongFields(Blank, t)
  }

  function Padded(data: seq<byte>): seq<byte> {
    data + [0, 0]
  }

  /** What the master makes of a reply telegram. */
  function ContentOf(t: seq<byte>): Readout.Content {
    if |t| < 9 then Readout.Bad
    else ContentOfImage(Image(ReplyFields(t), Padded(ReplyFields(t).data)))
  }

  /** A reply: a long or control telegram in which no variable length record dangles. */
  predicate GoodReply(t: seq<byte>) {
    && IsLong(t)
    && (ReplyFields(t).controlInformation == RESP_VARIABLE ==>
          !Dangles(Padded(ReplyFields(t).data), |ReplyFields(t).data|, HEADER_SIZE))
  }

  /** A good reply replaces everything in the frame that counts. */
  lemma GoodReplyReplaces(im: Image, t: seq<byte>)
    requires GoodImage(im) && GoodReply(t)
    ensures AfterParse(im, t).fields == ReplyFields(t) && ContentOfImage(AfterParse(im, t)) == ContentOf(t)
  {
    var g, after := ReplyFields(t), AfterParse(im, t);
    assert after.fields == g;
    AfterParseIsGood(im, t);
    assert Padded(g.data)[..|g.data|] == g.data;
    DataParseIgnoresStaleBytes(g.control, g.controlInformation, Padded(g.data), after.mem, |g.data|);
  }

  /** A leading E5 sets start byte and kind and leaves alone what the master then parses. */
  lemma LeadingAckLeaves(im: Image)
    requires GoodImage(im)
    ensures AfterParse(im, [ACK_START]).fields == im.fields.(start1 := ACK_START, kind := Ack)
    ensures ContentOfImage(AfterParse(im, [ACK_START])) == ContentOfImage(im)
  {
    AfterParseIsGood(im, [ACK_START]);
  }

  // ---------------------------------------------------------------- slave and line

  datatype LineFate = RequestLost | ReplyLost | Garbled | Delivered

  /** Garbled, but not into something that starts with another telegram. */
  ghost predicate NoTelegram(s: seq<byte>) {
    !exists t :: (IsShort(t) || IsLong(t)) && t <= s
  }

  /** The slave and the line to it. */
  class Link {
    const port: Port
    const telegram: nat -> seq<byte>
    const fate: nat -> LineFate
    const garbage: nat -> seq<byte>
    /** What the master makes of each telegram. */
    ghost const content: nat -> Readout.Content
    var slaveBit: bool
    var slavePos: Readout.Position
    var tick: nat
    /** The control bytes of the requests, in order. */
    ghost var requests: seq<byte>

    ghost predicate Valid() {
      && port.Prompt()
      && (forall k {:trigger GoodReply(telegram(k))} :: GoodReply(telegram(k)))
      && (forall k {:trigger NoTelegram(garbage(k))} :: NoTelegram(garbage(k)))
      && (forall k {:trigger ContentOf(telegram(k))} :: content(k) == ContentOf(telegram(k)))
    }

    /** A set bit was seen in a request, which was answered. */
    ghost predicate HasAnswered()
      reads this
    {
      slaveBit ==> slavePos >= 0
    }

    /** A freshly reset slave. */
    constructor (port: Port, telegram: nat -> seq<byte>, fate: nat -> LineFate, garbage: nat -> seq<byte>)
      requires port.Prompt()
      requires forall k {:trigger GoodReply(telegram(k))} :: GoodReply(telegram(k))
      requires forall k {:trigger NoTelegram(garbage(k))} :: NoTelegram(garbage(k))
      ensures Valid() && this.port == port && this.telegram == telegram && this.fate == fate && this.garbage == garbage
      ensures HasAnswered() && !slaveBit && slavePos == -1 && tick == 0 && requests == []
    {
      this.port, this.telegram, this.fate, this.garbage := port, telegram, fate, garbage;
      content := (k: nat) => ContentOf(telegram(k));
      slaveBit, slavePos, tick, requests := false, -1, 0, [];
    }

    /** What comes back for exchange `tick` when the slave then is at telegram `pos`. */
    function Answer(pos: int, tick: nat): seq<byte> {
      match fate(tick)
      case RequestLost | ReplyLost => []
      case Garbled => garbage(tick)
      case Delivered => if pos < 0 then [] else telegram(pos)
    }

    /** A request goes out over the line, and the slave answers. */
    method Transmit(request: seq<byte>)
      requires Valid() && BitOf(request).Some?
      modifies this`slaveBit, this`slavePos, this`tick, port`incoming
      ensures tick == old(tick) + 1
      ensures SlaveMoved(BitOf(request).value, fate(old(tick)), old(slaveBit), old(slavePos))
      ensures old(HasAnswered()) ==> HasAnswered()
      ensures port.incoming == old(port.incoming) + Answer(slavePos, old(tick))
    {
      var bit := BitOf(request).value;
      if fate(tick) != RequestLost && bit != slaveBit {
        slaveBit, slavePos := bit, slavePos + 1;
      }
      port.incoming := port.incoming + Answer(slavePos, tick);
      tick := tick + 1;
    }

    /** The slave after a request with the given bit. */
    predicate SlaveMoved(bit: bool, fate: LineFate, wasBit: bool, wasPos: Readout.Position)
      reads this
    {
      var hears := fate != RequestLost && bit != wasBit;
      slaveBit == (if hears then bit else wasBit) && slavePos == (if hears then wasPos + 1 else wasPos)
    }

    /** The frame `im` after exchange `tick`. */
    function Filled(pos: int, tick: nat, im: Image): Image {
      AfterParse(im, Answer(pos, tick)[..End(Answer(pos, tick))])
    }

    /** What exchange `tick` is for the protocol, with `im` as the frame to be filled. */
    function FateOf(tick: nat, im: Image): Readout.Fate {
      match fate(tick)
      case RequestLost => Readout.RequestLost
      case ReplyLost => Readout.ReplyLost
      case Delivered => Readout.Delivered
      case Garbled =>
        var g := garbage(tick);
        if g == [] then Readout.ReplyLost
        else if g[0] == ACK_START then Readout.LeadingAck
        else Readout.Rejected(ContentOfImage(AfterParse(im, g[..End(g)])))
    }

    /** What an answer on the drained line is received as, and what it does to the frame. */
    lemma AnswerMeans(pos: nat, tick: nat, im: Image)
      requires Valid() && GoodImage(im)
      ensures
        var result, after := Outcome(Answer(pos, tick)), Filled(pos, tick, im);
        match FateOf(tick, im)
        case RequestLost | ReplyLost => result == RecvTimeout && after == im
        case Rejected(left) => result == RecvInvalid && ContentOfImage(after) == left
        case LeadingAck =>
          result == RecvOk && ContentOfImage(after) == ContentOfImage(im) && after.fields.kind == Ack
        case Delivered =>
          && result == RecvOk && ContentOfImage(after) == content(pos)
          && |telegram(pos)| >= 9 && after.fields == ReplyFields(telegram(pos))
    {
      match fate(tick) {
        case Delivered =>
          TelegramMeans(pos, im);
        case Garbled =>
          if garbage(tick) == [] {
            NothingParsed(im);
          } else {
            GarbageMeans(tick, im);
          }
        case _ =>
          NothingParsed(im);
      }
    }

    lemma TelegramMeans(pos: nat, im: Image)
      requires Valid() && GoodImage(im)
      ensures
        var t := telegram(pos);
        && Outcome(t) == RecvOk && |t| >= 9
        && AfterParse(im, t[..End(t)]).fields == ReplyFields(t)
        && ContentOfImage(AfterParse(im, t[..End(t)])) == content(pos)
    {
      var t := telegram(pos);
      assert GoodReply(t) && content(pos) == ContentOf(t);
      EndOfTelegram(t, t);
      assert t[..End(t)] == t;
      GoodReplyReplaces(im, t);
    }

    lemma GarbageMeans(tick: nat, im: Image)
      requires Valid() && GoodImage(im) && garbage(tick) != []
      ensures
        var g := garbage(tick);
        var after := AfterParse(im, g[..End(g)]);
        if g[0] == ACK_START then
          && Outcome(g) == RecvOk && ContentOfImage(after) == ContentOfImage(im) && after.fields.kind == Ack
        else Outcome(g) == RecvInvalid
    {
      var g := garbage(tick);
      assert NoTelegram(g);
      OutcomeOkExactly(g);
      if g[0] == ACK_START {
        assert g[..End(g)] == [ACK_START];
        LeadingAckLeaves(im);
      }
    }
  }

  // ---------------------------------------------------------------- a call as a run of the protocol

  /** The protocol of a call that starts with the slave at `pos` with `bit`, and with the frame `im`. */
  ghost function Protocol(link: Link, bit: bool, pos: Readout.Position, im: Image, maxRetry: nat, maxFrames: int)
    : Readout.Setup
    requires bit ==> pos >= 0
  {
    Readout.Setup(maxRetry, maxFrames, link.content, if bit then pos else pos + 1, bit, ContentOfImage(im))
  }

  /** After some exchanges: what they were for the protocol, its state, the frame to be filled next,
      and what the last exchange was and left in the frame. */
  datatype Trace = Trace(fates: seq<Readout.Fate>, state: Readout.State, image: Image, fate: Readout.Fate, fill: Image)

  /** One exchange more. The next frame is a blank one if something was taken and more is to come. */
  function After(link: Link, c: Readout.Setup, tick: nat, before: Trace): Trace {
    var fate := link.FateOf(tick, before.image);
    var s, t := before.state, Readout.Step(c, before.state, fate);
    var fill := link.Filled(t.slavePos, tick, before.image);
    Trace(before.fates + [fate], t,
          if t.status == Readout.Running && |t.taken| > |s.taken| then BlankImage() else fill, fate, fill)
  }

  /** The first `n` exchanges from exchange `from` on. */
  function Line(link: Link, c: Readout.Setup, from: nat, im: Image, n: nat): Trace {
    if n == 0 then Trace([], Readout.Start(c), im, Readout.RequestLost, im)
    else After(link, c, from + n - 1, Line(link, c, from, im, n - 1))
  }

  lemma LineStep(link: Link, c: Readout.Setup, from: nat, im: Image, n: nat)
    ensures Line(link, c, from, im, n + 1) == After(link, c, from + n, Line(link, c, from, im, n))
  {
  }

  lemma AfterRuns(link: Link, c: Readout.Setup, tick: nat, before: Trace)
    requires before.state == Readout.Run(c, before.fates)
    ensures After(link, c, tick, before).state == Readout.Run(c, After(link, c, tick, before).fates)
  {
    var after := After(link, c, tick, before);
    assert after.fates[..|before.fates|] == before.fates;
  }
}
