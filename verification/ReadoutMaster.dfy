/** The multi-telegram readout in bytes: requests packed and sent, replies received, parsed and
    hung into a chain of frames, step by step the protocol of module Readout. */
module ReadoutMaster {
  import opened Bytes
  import opened Telegram
  import opened FrameBuffer
  import opened Framing
  import opened RecordParser
  import opened SlaveLink
  import Readout
  import Master

  // ---------------------------------------------------------------- one exchange

  /** The request frame, whatever its lengths and check sum were last set to. */
  predicate IsRequest(f: Fields, bit: bool, address: byte) {
    f.(length1 := 0, length2 := 0, checksum := 0) == RequestTelegram(bit, address)
  }

  /** mbus_send_frame for the request frame. */
  method SendRequest(link: Link, frame: Frame, ghost bit: bool, ghost address: byte)
    requires link.Valid() && frame.Valid() && IsRequest(frame.View(), bit, address)
    modifies link, link.port`incoming, frame
    ensures frame.Valid() && IsRequest(frame.View(), bit, address)
    ensures link.tick == old(link.tick) + 1 && link.requests == old(link.requests) + [RequestByte(bit)]
    ensures link.SlaveMoved(bit, link.fate(old(link.tick)), old(link.slaveBit), old(link.slavePos))
    ensures old(link.HasAnswered()) ==> link.HasAnswered()
    ensures link.port.incoming == old(link.port.incoming) + link.Answer(link.slavePos, old(link.tick))
  {
    var buffer := new byte[Master.SEND_BUFFER](_ => 0);
    RequestArrives(bit, address);
    link.requests := link.requests + [frame.control];
    var code := frame.PackInto(buffer);
    assert buffer[..code] == Wire(Sealed(RequestTelegram(bit, address)));
    link.Transmit(buffer[..code]);
  }

  /** One exchange: request out, reply in, and the rest of the line purged unless it was silent. */
  method Exchange(link: Link, request: Frame, reply: Frame, ghost bit: bool, ghost address: byte)
    returns (result: RecvResult)
    requires link.Valid() && link.port.incoming == []
    requires request.Valid() && reply.Valid() && request != reply && request.data != reply.data
    requires IsRequest(request.View(), bit, address)
    modifies link, link.port, request, reply, reply.data
    ensures request.Valid() && reply.Valid() && IsRequest(request.View(), bit, address)
    ensures link.port.incoming == [] && link.tick == old(link.tick) + 1
    ensures link.requests == old(link.requests) + [RequestByte(bit)]
    ensures link.SlaveMoved(bit, link.fate(old(link.tick)), old(link.slaveBit), old(link.slavePos))
    ensures old(link.HasAnswered()) ==> link.HasAnswered()
    ensures result == Outcome(link.Answer(link.slavePos, old(link.tick)))
    ensures reply.Snapshot() == link.Filled(link.slavePos, old(link.tick), old(reply.Snapshot()))
    ensures result == RecvOk ==> reply.next == null
  {
    SendRequest(link, request, bit, address);
    assert link.port.incoming == link.Answer(link.slavePos, old(link.tick));
    var more;
    result, more := Master.ReceiveAndPurge(link.port, reply);
  }

  /** mbus_frame_data_parse on a frame, and whether more telegrams are to be read. */
  method Judge(frame: Frame) returns (content: Readout.Content)
    requires frame.Valid()
    ensures content == ContentOfImage(frame.Snapshot())
  {
    var ok, data := ParseFrameData(frame);
    content := if !ok then Readout.Bad
    else if data.kind != VariableKind then Readout.Last
    else if data.variable.moreRecordsFollow then Readout.More else Readout.Last;
  }

  // ---------------------------------------------------------------- a pass as a step of the protocol

  /** The control bytes of logged requests. */
  function BytesOf(log: seq<Readout.Attempt>): seq<byte> {
    if log == [] then [] else BytesOf(log[..|log| - 1]) + [RequestByte(log[|log| - 1].bit)]
  }

  lemma BytesAppend(log: seq<Readout.Attempt>, a: Readout.Attempt)
    ensures BytesOf(log + [a]) == BytesOf(log) + [RequestByte(a.bit)]
  {
    assert (log + [a])[..|log|] == log;
  }

  lemma {:induction false} OneByteARequest(log: seq<Readout.Attempt>)
    ensures |BytesOf(log)| == |log|
    ensures forall i :: 0 <= i < |log| ==> BytesOf(log)[i] == if log[i].bit then 0x7B else 0x5B
  {
    if log != [] {
      OneByteARequest(log[..|log| - 1]);
    }
  }

  /** The slave of the link is where the protocol says, and these requests were sent after `earlier`. */
  ghost predicate Agrees(link: Link, earlier: seq<byte>, s: Readout.State)
    reads link
  {
    && link.slaveBit == s.slaveBit && link.slavePos == s.slavePos && link.HasAnswered()
    && link.requests == earlier + BytesOf(s.log)
  }

  /** What is taken when something is accepted. */
  function ItemOf(fate: Readout.Fate, s: Readout.State, pos: Readout.Position): Readout.Item {
    if fate == Readout.LeadingAck || pos < 0 then Readout.Stale(s.held) else Readout.Reply(pos)
  }

  /** What the exchange with fate `fate` does to master and slave on the way from `s` to `t`. */
  predicate Moves(c: Readout.Setup, s: Readout.State, fate: Readout.Fate, t: Readout.State) {
    var hears := fate != Readout.RequestLost && s.bit != s.slaveBit;
    && t.log == s.log + [Readout.Attempt(s.bit, Readout.Brings(fate))]
    && t.slaveBit == (if hears then s.bit else s.slaveBit)
    && t.slavePos == (if hears then s.slavePos + 1 else s.slavePos)
    && (fate != Readout.RequestLost ==> t.slavePos >= 0)
    && if !Readout.Brings(fate) then
         && t.taken == s.taken && t.bit == s.bit && t.retry == s.retry + 1
         && t.status == if t.retry > c.maxRetry then Readout.GaveUp else Readout.Running
       else
         var item := ItemOf(fate, s, t.slavePos);
         var content := Readout.ContentOf(c, item);
         var goOn := content == Readout.More && c.maxFrames > 0 && |s.taken| + 1 < c.maxFrames;
         && t.retry == 0 && t.bit == (if goOn then !s.bit else s.bit)
         && t.taken == (if content == Readout.Bad && item.Stale? then s.taken else s.taken + [item])
         && t.status == if content == Readout.Bad then Readout.Broken
                        else if goOn then Readout.Running else Readout.Complete
  }

  lemma StepMoves(c: Readout.Setup, s: Readout.State, fate: Readout.Fate)
    requires s.status == Readout.Running && Readout.Sound(c, s)
    ensures Moves(c, s, fate, Readout.Step(c, s, fate))
  {
    Readout.HearingKeeps(c, s);
  }

  /** A frame that holds what was taken: the reply telegram, or something else that parses. */
  ghost predicate Holds(link: Link, im: Image, item: Readout.Item) {
    match item
    case Reply(n) => |link.telegram(n)| >= 9 && im.fields == ReplyFields(link.telegram(n))
    case Stale(content) => im.fields.kind == Ack && ContentOfImage(im) == content
  }

  /** One pass of the loop in mbus_sendrecv_request: the exchange and the verdict on its reply move
      link and master like a step of the protocol. */
  method Pass(link: Link, request: Frame, reply: Frame, ghost plan: Plan, ghost n: nat)
    returns (result: RecvResult, content: Readout.Content)
    requires Follows(link, plan) && AtExchange(link, request, reply, plan, n)
    requires request != reply && request.data != reply.data
    modifies link, link.port, request, reply, reply.data
    ensures request.Valid() && reply.Valid() && IsRequest(request.View(), plan.StateAt(n).bit, plan.address)
    ensures link.port.incoming == [] && link.tick == plan.from + n + 1
    ensures Agrees(link, plan.earlier, plan.StateAt(n + 1))
    ensures reply.Snapshot() == plan.FillAt(n) && (result == RecvOk <==> Readout.Brings(plan.FateAt(n)))
    ensures Judged(plan.setup, plan.StateAt(n), plan.StateAt(n + 1), result == RecvOk, content)
    ensures
      var s, t := plan.StateAt(n), plan.StateAt(n + 1);
      |t.taken| > |s.taken| ==> reply.next == null && Holds(link, reply.Snapshot(), t.taken[|s.taken|])
  {
    StepMeans(link, plan, n);
    result := ExchangeAt(link, request, reply, plan, n);
    content := Readout.Bad;
    if result == RecvOk {
      content := Judge(reply);
    }
  }

  /** Before exchange n + 1. */
  ghost predicate AtExchange(link: Link, request: Frame, reply: Frame, plan: Plan, n: nat)
    reads link, link.port, request, request.data, reply, reply.data
  {
    var s := plan.StateAt(n);
    && s.status == Readout.Running && link.port.incoming == [] && link.tick == plan.from + n
    && Agrees(link, plan.earlier, s) && reply.Valid() && reply.Snapshot() == plan.ImageAt(n)
    && request.Valid() && IsRequest(request.View(), s.bit, plan.address)
  }

  /** The exchange alone. */
  method ExchangeAt(link: Link, request: Frame, reply: Frame, ghost plan: Plan, ghost n: nat)
    returns (result: RecvResult)
    requires Follows(link, plan) && AtExchange(link, request, reply, plan, n)
    requires request != reply && request.data != reply.data
    modifies link, link.port, request, reply, reply.data
    ensures request.Valid() && reply.Valid() && IsRequest(request.View(), plan.StateAt(n).bit, plan.address)
    ensures link.port.incoming == [] && link.tick == plan.from + n + 1
    ensures Agrees(link, plan.earlier, plan.StateAt(n + 1))
    ensures reply.Snapshot() == plan.FillAt(n) && (result == RecvOk <==> Readout.Brings(plan.FateAt(n)))
    ensures result == RecvOk ==> reply.next == null
  {
    ghost var log := link.requests;
    result := Exchange(link, request, reply, plan.StateAt(n).bit, plan.address);
    ExchangeMeans(link, plan, n, link.slaveBit, link.slavePos, result, reply.Snapshot(), log);
  }

  lemma ExchangeMeans(link: Link, plan: Plan, n: nat, bit: bool, pos: Readout.Position, result: RecvResult, im: Image,
                      log: seq<byte>)
    requires Follows(link, plan) && plan.StateAt(n).status == Readout.Running && GoodImage(plan.ImageAt(n))
    requires
      var s, tick := plan.StateAt(n), plan.from + n;
      var hears := link.fate(tick) != RequestLost && s.bit != s.slaveBit;
      && bit == (if hears then s.bit else s.slaveBit) && pos == (if hears then s.slavePos + 1 else s.slavePos)
      && result == Outcome(link.Answer(pos, tick)) && im == link.Filled(pos, tick, plan.ImageAt(n))
      && log == plan.earlier + BytesOf(s.log)
    ensures
      var s, t := plan.StateAt(n), plan.StateAt(n + 1);
      && bit == t.slaveBit && pos == t.slavePos && im == plan.FillAt(n)
      && (result == RecvOk <==> Readout.Brings(plan.FateAt(n)))
      && log + [RequestByte(s.bit)] == plan.earlier + BytesOf(t.log)
  {
    StepMeans(link, plan, n);
  }

  /** What the exchange does, from the protocol and the line. */
  lemma StepMeans(link: Link, plan: Plan, n: nat)
    requires Follows(link, plan) && plan.StateAt(n).status == Readout.Running && GoodImage(plan.ImageAt(n))
    ensures
      var s, t, fate := plan.StateAt(n), plan.StateAt(n + 1), plan.FateAt(n);
      var tick := plan.from + n;
      var hears := link.fate(tick) != RequestLost && s.bit != s.slaveBit;
      && t.slaveBit == (if hears then s.bit else s.slaveBit)
      && t.slavePos == (if hears then s.slavePos + 1 else s.slavePos)
      && BytesOf(t.log) == BytesOf(s.log) + [RequestByte(s.bit)]
      && plan.FillAt(n) == link.Filled(t.slavePos, tick, plan.ImageAt(n))
      && (Outcome(link.Answer(t.slavePos, tick)) == RecvOk <==> Readout.Brings(fate))
      && Judged(plan.setup, s, t, Readout.Brings(fate), ContentOfImage(plan.FillAt(n)))
      && (|t.taken| > |s.taken| ==> Readout.Brings(fate) && Holds(link, plan.FillAt(n), t.taken[|s.taken|]))
  {
    var s, t, fate := plan.StateAt(n), plan.StateAt(n + 1), plan.FateAt(n);
    assert StepAt(link, plan, n);
    BytesAppend(s.log, Readout.Attempt(s.bit, Readout.Brings(fate)));
    AnswerAt(link, t.slavePos, plan.from + n, plan.ImageAt(n));
    MovesJudged(plan.setup, s, fate, t);
  }

  lemma MovesJudged(c: Readout.Setup, s: Readout.State, fate: Readout.Fate, t: Readout.State)
    requires Moves(c, s, fate, t)
    ensures Judged(c, s, t, Readout.Brings(fate), Readout.ContentOf(c, ItemOf(fate, s, t.slavePos)))
    ensures |t.taken| > |s.taken| ==> Readout.Brings(fate) && t.taken[|s.taken|] == ItemOf(fate, s, t.slavePos)
  {
  }

  /** What the verdict on an accepted reply says of the protocol's next state. */
  predicate Judged(c: Readout.Setup, s: Readout.State, t: Readout.State, brings: bool, content: Readout.Content) {
    if brings then
      && (content == Readout.Bad <==> t.status == Readout.Broken)
      && (t.status == Readout.Running <==> content == Readout.More && c.maxFrames > 0 && |s.taken| + 1 < c.maxFrames)
      && t.status != Readout.GaveUp && t.bit == (if t.status == Readout.Running then !s.bit else s.bit)
      && (content != Readout.Bad ==> |t.taken| > |s.taken|)
      && (|t.taken| > |s.taken| ==> t.taken == s.taken + [t.taken[|s.taken|]])
      && (|t.taken| <= |s.taken| ==> t.taken == s.taken)
    else t.taken == s.taken && t.bit == s.bit
  }

  /** AnswerMeans, also for a slave that has not sent anything and is not asked. */
  lemma AnswerAt(link: Link, pos: Readout.Position, tick: nat, im: Image)
    requires link.Valid() && GoodImage(im) && (link.FateOf(tick, im) != Readout.RequestLost ==> pos >= 0)
    ensures
      var result, after := Outcome(link.Answer(pos, tick)), link.Filled(pos, tick, im);
      match link.FateOf(tick, im)
      case RequestLost | ReplyLost => result == RecvTimeout && after == im
      case Rejected(left) => result == RecvInvalid && ContentOfImage(after) == left
      case LeadingAck => result == RecvOk && Holds(link, after, Readout.Stale(ContentOfImage(im)))
      case Delivered =>
        result == RecvOk && ContentOfImage(after) == link.content(pos) && Holds(link, after, Readout.Reply(pos))
  {
    if pos >= 0 {
      link.AnswerMeans(pos, tick, im);
    } else {
      link.AnswerMeans(0, tick, im);
    }
  }

  // ---------------------------------------------------------------- the chain of frames

  /** The frames of a reply, all within `used`: they hold the items in order, they share nothing, and
      each points to the next one, the last one to `rest`. */
  ghost predicate Chain(frames: seq<Frame>, items: seq<Readout.Item>, rest: Frame?, link: Link, used: set<object>)
    reads used
  {
    && |frames| == |items|
    && (frames != [] ==>
          var k := |frames| - 1;
          var last := frames[k];
          && last in used && last.data in used
          && last.Valid() && last.next == rest && Holds(link, last.Snapshot(), items[k])
          && Chain(frames[..k], items[..k], last, link, used - {last, last.data}))
  }

  /** Walking along the chain. */
  lemma ChainHolds(frames: seq<Frame>, items: seq<Readout.Item>, rest: Frame?, link: Link, used: set<object>)
    requires Chain(frames, items, rest, link, used)
    ensures |frames| == |items|
    ensures forall i :: 0 <= i < |frames| ==>
              && frames[i] in used && frames[i].Valid() && Holds(link, frames[i].Snapshot(), items[i])
              && frames[i].next == (if i + 1 < |frames| then frames[i + 1] else rest)
    ensures forall i, j :: 0 <= i < j < |frames| ==> frames[i] != frames[j]
  {
    forall i | 0 <= i < |frames|
      ensures
        && frames[i] in used && frames[i].Valid() && Holds(link, frames[i].Snapshot(), items[i])
        && frames[i].next == (if i + 1 < |frames| then frames[i + 1] else rest)
        && forall j :: i < j < |frames| ==> frames[i] != frames[j]
    {
      ChainAt(frames, items, rest, link, used, i);
    }
  }

  lemma {:induction false} ChainAt(frames: seq<Frame>, items: seq<Readout.Item>, rest: Frame?, link: Link,
                                   used: set<object>, i: nat)
    requires Chain(frames, items, rest, link, used) && i < |frames|
    ensures frames[i] in used && frames[i].Valid() && Holds(link, frames[i].Snapshot(), items[i])
    ensures frames[i].next == if i + 1 < |frames| then frames[i + 1] else rest
    ensures forall j :: i < j < |frames| ==> frames[i] != frames[j]
  {
    var k := |frames| - 1;
    if i < k {
      ChainAt(frames[..k], items[..k], frames[k], link, used - {frames[k], frames[k].data}, i);
    }
  }

  lemma ChainGrows(frames: seq<Frame>, items: seq<Readout.Item>, frame: Frame, item: Readout.Item, link: Link,
                   used: set<object>)
    requires Chain(frames, items, frame, link, used) && frame !in used && frame.data !in used
    requires frame.Valid() && Holds(link, frame.Snapshot(), item)
    ensures Chain(frames + [frame], items + [item], frame.next, link, used + {frame, frame.data})
  {
    var whole, all := frames + [frame], items + [item];
    assert |whole| - 1 == |frames| && whole[..|frames|] == frames && whole[|frames|] == frame;
    assert all[..|frames|] == items && all[|frames|] == item;
    assert used + {frame, frame.data} - {frame, frame.data} == used;
  }

  /** The caller's frame comes first. */
  predicate StartsWith(frames: seq<Frame>, rest: Frame?, first: Frame) {
    if frames == [] then rest == first else frames[0] == first
  }

  /** The next frame and the request frame are apart from each other, from the chain and from the line. */
  ghost predicate Apart(link: Link, request: Frame, next: Frame, used: set<object>) {
    && next !in used && next.data !in used && request !in used && request.data !in used
    && link !in used && link.port !in used
    && request != next && request.data != next.data
  }

  /** What stays the same during a call: the number of its first exchange, the requests sent before it,
      and what the protocol says: after n exchanges the state and the frame to be filled next, and of
      exchange n + 1 its fate and the frame after it. */
  datatype Plan = Plan(
    address: byte, setup: Readout.Setup, reply: Frame, from: nat, earlier: seq<byte>, line: nat -> Trace)
  {
    function StateAt(n: nat): Readout.State {
      line(n).state
    }

    function ImageAt(n: nat): Image {
      line(n).image
    }

    function FateAt(n: nat): Readout.Fate {
      line(n + 1).fate
    }

    function FillAt(n: nat): Image {
      line(n + 1).fill
    }
  }

  /** How far a call has come: the state of the protocol, the frames taken, all within `used`, and the
      frame behind them, if any. */
  datatype Progress = Progress(state: Readout.State, frames: seq<Frame>, used: set<object>, rest: Frame?)

  /** A pass fills the frame behind the chain and leaves the chain alone. */
  method PassOnChain(link: Link, request: Frame, next: Frame, ghost plan: Plan, ghost n: nat, ghost before: Progress)
    returns (result: RecvResult, content: Readout.Content)
    requires Follows(link, plan) && Poised(link, request, next, plan, n, before)
    modifies link, link.port, request, next, next.data
    ensures request.Valid() && IsRequest(request.View(), before.state.bit, plan.address)
    ensures Arrived(link, next, plan, n, before, result == RecvOk, content)
  {
    ghost var s, t := before.state, plan.StateAt(n + 1);
    result, content := Pass(link, request, next, plan, n);
    if |t.taken| > |s.taken| {
      ChainGrows(before.frames, s.taken, next, t.taken[|s.taken|], link, before.used);
    }
  }

  /** Before exchange n + 1, with `next` as the frame to be filled. */
  ghost predicate Poised(link: Link, request: Frame, next: Frame, plan: Plan, n: nat, before: Progress)
    reads link, link.port, request, request.data, next, next.data, before.used
  {
    && link.port.incoming == [] && link.tick == plan.from + n && Agrees(link, plan.earlier, before.state)
    && before.state == plan.StateAt(n) && before.state.status == Readout.Running
    && Chain(before.frames, before.state.taken, next, link, before.used) && Apart(link, request, next, before.used)
    && next.Valid() && next.Snapshot() == plan.ImageAt(n)
    && request.Valid() && IsRequest(request.View(), before.state.bit, plan.address)
  }

  /** After exchange n + 1: `brings` if something was accepted. */
  ghost predicate Arrived(link: Link, next: Frame, plan: Plan, n: nat, before: Progress,
                          brings: bool, content: Readout.Content)
    reads link, link.port, next, next.data, before.used
  {
    var s, t := before.state, plan.StateAt(n + 1);
    && next.Valid() && link.port.incoming == [] && link.tick == plan.from + n + 1 && Agrees(link, plan.earlier, t)
    && next.Snapshot() == plan.FillAt(n) && (brings <==> Readout.Brings(plan.FateAt(n)))
    && Judged(plan.setup, s, t, brings, content)
    && Chain(before.frames, s.taken, next, link, before.used)
    && (|t.taken| > |s.taken| ==>
          Chain(before.frames + [next], t.taken, null, link, before.used + {next, next.data}))
  }

  /** After something is accepted: whether to go on, and if so the other frame count bit. */
  method Decide(request: Frame, content: Readout.Content, frameCount: nat, maxFrames: int,
                ghost bit: bool, ghost address: byte)
    returns (again: bool)
    requires request.Valid() && IsRequest(request.View(), bit, address)
    modifies request`control
    ensures again <==> content == Readout.More && maxFrames > 0 && frameCount < maxFrames
    ensures request.Valid() && IsRequest(request.View(), if again then !bit else bit, address)
  {
    again := content == Readout.More && maxFrames > 0 && frameCount < maxFrames;
    if again {
      request.control := if request.control == REQUEST_BIT_SET then REQUEST_BIT_CLEARED else REQUEST_BIT_SET;
    }
  }

  // ---------------------------------------------------------------- the loop

  /** A new frame behind the last one. */
  method Extend(last: Frame, link: Link, ghost chain: seq<Frame>, ghost items: seq<Readout.Item>,
                ghost used: set<object>)
    returns (frame: Frame)
    requires last !in used && last.data !in used && Chain(chain + [last], items, null, link, used + {last, last.data})
    modifies last`next
    ensures fresh(frame) && fresh(frame.data) && frame.Valid() && frame.Snapshot() == BlankImage()
    ensures Chain(chain + [last], items, frame, link, used + {last, last.data})
  {
    assert (chain + [last])[..|chain|] == chain;
    assert used + {last, last.data} - {last, last.data} == used;
    frame := new Frame(AnyKind);
    assert frame.data[..] == Zeros(MAX_DATA + 2);
    last.next := frame;
  }

  /** The protocol knows what the frame to be filled next parses to. */
  lemma HeldFollows(link: Link, c: Readout.Setup, tick: nat, before: Trace)
    requires link.Valid() && c.content == link.content && GoodImage(before.image)
    requires before.state.status == Readout.Running && Readout.Sound(c, before.state)
    requires before.state.held == ContentOfImage(before.image)
    ensures
      var after := After(link, c, tick, before);
      after.state.status == Readout.Running ==> after.state.held == ContentOfImage(after.image)
  {
    var s, t, fate := before.state, After(link, c, tick, before).state, After(link, c, tick, before).fate;
    StepMoves(c, s, fate);
    Readout.StepHeld(c, s, fate);
    AnswerAt(link, t.slavePos, tick, before.image);
    BlankIsBad();
  }

  /** Exchange n + 1 of the call is a step of the protocol. */
  predicate StepAt(link: Link, plan: Plan, n: nat) {
    var s, t, im := plan.StateAt(n), plan.StateAt(n + 1), plan.ImageAt(n);
    s.status == Readout.Running && GoodImage(im) ==>
      && s.held == ContentOfImage(im) && |s.taken| < Readout.FrameLimit(plan.setup)
      && plan.FateAt(n) == link.FateOf(plan.from + n, im) && Moves(plan.setup, s, plan.FateAt(n), t)
      && plan.FillAt(n) == link.Filled(t.slavePos, plan.from + n, im)
      && plan.ImageAt(n + 1) ==
           if t.status == Readout.Running && |t.taken| > |s.taken| then BlankImage() else plan.FillAt(n)
  }

  /** What a turn of the loop needs of it. */
  lemma StepLeaves(link: Link, plan: Plan, n: nat)
    requires Follows(link, plan) && plan.StateAt(n).status == Readout.Running && GoodImage(plan.ImageAt(n))
    ensures
      var s, t := plan.StateAt(n), plan.StateAt(n + 1);
      && |s.taken| < Readout.FrameLimit(plan.setup)
      && plan.ImageAt(n + 1) ==
           (if t.status == Readout.Running && |t.taken| > |s.taken| then BlankImage() else plan.FillAt(n))
      && if Readout.Brings(plan.FateAt(n)) then t.retry == 0
         else
           && t.retry == s.retry + 1
           && t.status == if t.retry > plan.setup.maxRetry then Readout.GaveUp else Readout.Running
  {
    assert StepAt(link, plan, n);
  }

  ghost predicate Follows(link: Link, plan: Plan) {
    && link.Valid() && plan.setup.content == link.content
    && plan.StateAt(0) == Readout.Start(plan.setup)
    && forall n {:trigger StepAt(link, plan, n)} :: StepAt(link, plan, n)
  }

  /** The master's variables after `n` exchanges, against the protocol. */
  ghost predicate Between(link: Link, request: Frame, plan: Plan, n: nat, retry: nat)
    reads link, link.port, request, request.data
  {
    var s := plan.StateAt(n);
    && link.port.incoming == [] && link.tick == plan.from + n && Agrees(link, plan.earlier, s)
    && (s.status == Readout.Running || s.status == Readout.GaveUp ==>
          && retry == s.retry && request.Valid() && IsRequest(request.View(), s.bit, plan.address))
  }

  /** The loop of mbus_sendrecv_request before a pass, or after the last one. */
  ghost predicate Loop(link: Link, request: Frame, plan: Plan, n: nat, at: Progress, retry: nat, more: bool,
                       retval: int)
    reads link, link.port, request, request.data, at.used, at.rest, if at.rest == null then {} else {at.rest.data}
  {
    && Between(link, request, plan, n, retry) && at.state == plan.StateAt(n)
    && Chain(at.frames, at.state.taken, at.rest, link, at.used) && StartsWith(at.frames, at.rest, plan.reply)
    && (if more then
          && retval == 0 && at.rest != null && at.rest.Valid() && Apart(link, request, at.rest, at.used)
          && at.state.status == (if retry > plan.setup.maxRetry then Readout.GaveUp else Readout.Running)
          && (at.state.status == Readout.Running ==> at.rest.Snapshot() == plan.ImageAt(n))
        else
          && at.state.status != Readout.Running
          && retval == (if at.state.status == Readout.Complete then 0 else 1)
          && (retval == 0 ==> at.rest == null))
  }

  /** Nothing was accepted: the same frame is tried again. */
  lemma Repeats(link: Link, request: Frame, next: Frame, plan: Plan, n: nat, before: Progress, retry: nat,
                content: Readout.Content)
    requires Follows(link, plan) && GoodImage(plan.ImageAt(n))
    requires Arrived(link, next, plan, n, before, false, content) && InLoop(link, request, next, plan, n, before)
    requires request.Valid() && IsRequest(request.View(), before.state.bit, plan.address)
    requires before.state.retry == retry
    ensures Loop(link, request, plan, n + 1, before.(state := plan.StateAt(n + 1)), retry + 1, true, 0)
  {
    StepLeaves(link, plan, n);
  }

  /** What is accepted does not parse: the chain is extended by a telegram, but not by an old frame. */
  lemma Breaks(link: Link, request: Frame, next: Frame, plan: Plan, n: nat, before: Progress)
    requires Arrived(link, next, plan, n, before, true, Readout.Bad) && InLoop(link, request, next, plan, n, before)
    ensures Loop(link, request, plan, n + 1, Stopped(plan, n, before, next), 0, false, 1)
  {
  }

  ghost function Stopped(plan: Plan, n: nat, before: Progress, next: Frame): Progress {
    var t := plan.StateAt(n + 1);
    if |t.taken| > |before.state.taken| then
      Progress(t, before.frames + [next], before.used + {next, next.data}, null)
    else before.(state := t)
  }

  /** What does not change during an exchange. */
  ghost predicate InLoop(link: Link, request: Frame, next: Frame, plan: Plan, n: nat, before: Progress) {
    && before.state == plan.StateAt(n) && before.state.status == Readout.Running && before.rest == next
    && StartsWith(before.frames, next, plan.reply) && Apart(link, request, next, before.used)
  }

  /** Something that parses was accepted, and the chain has grown by it; `bit` is that of the request. */
  ghost predicate Grown(link: Link, request: Frame, next: Frame, plan: Plan, n: nat, before: Progress, bit: bool)
    reads link, link.port, request, request.data, next, next.data, before.used
  {
    && link.port.incoming == [] && link.tick == plan.from + n && Agrees(link, plan.earlier, plan.StateAt(n))
    && request.Valid() && IsRequest(request.View(), bit, plan.address)
    && Chain(before.frames + [next], plan.StateAt(n).taken, null, link, before.used + {next, next.data})
    && StartsWith(before.frames, next, plan.reply) && Apart(link, request, next, before.used)
  }

  /** How the protocol goes on after content that parses. */
  predicate GoesOn(plan: Plan, n: nat, frameCount: nat, bit: bool, content: Readout.Content) {
    var c, t := plan.setup, plan.StateAt(n);
    if content == Readout.More && c.maxFrames > 0 && frameCount < c.maxFrames
    then t.status == Readout.Running && t.bit == !bit && t.retry == 0 && plan.ImageAt(n) == BlankImage()
    else t.status == Readout.Complete
  }

  lemma Grows(link: Link, request: Frame, next: Frame, plan: Plan, n: nat, before: Progress, content: Readout.Content)
    requires Follows(link, plan) && GoodImage(plan.ImageAt(n))
    requires Arrived(link, next, plan, n, before, true, content) && content != Readout.Bad
    requires InLoop(link, request, next, plan, n, before)
    requires request.Valid() && IsRequest(request.View(), before.state.bit, plan.address)
    ensures Grown(link, request, next, plan, n + 1, before, before.state.bit)
    ensures GoesOn(plan, n + 1, |before.frames| + 1, before.state.bit, content)
  {
    StepLeaves(link, plan, n);
  }

  ghost function With(plan: Plan, n: nat, before: Progress, next: Frame, rest: Frame?): Progress {
    Progress(plan.StateAt(n), before.frames + [next], before.used + {next, next.data}, rest)
  }

  lemma Finishes(link: Link, request: Frame, next: Frame, plan: Plan, n: nat, before: Progress, bit: bool)
    requires Grown(link, request, next, plan, n, before, bit) && plan.StateAt(n).status == Readout.Complete
    ensures Loop(link, request, plan, n, With(plan, n, before, next, null), 0, false, 0)
  {
  }

  /** A new frame at the end of the chain. */
  method GoOn(link: Link, request: Frame, next: Frame, ghost plan: Plan, ghost n: nat, ghost before: Progress)
    returns (frame: Frame)
    requires Grown(link, request, next, plan, n, before, plan.StateAt(n).bit)
    requires plan.StateAt(n).status == Readout.Running && plan.StateAt(n).retry == 0 && plan.ImageAt(n) == BlankImage()
    modifies next`next
    ensures Loop(link, request, plan, n, With(plan, n, before, next, frame), 0, true, 0)
    ensures fresh(frame) && fresh(frame.data)
  {
    frame := Extend(next, link, before.frames, plan.StateAt(n).taken, before.used);
  }

  /** The frame count bit is toggled, and a new frame is put at the end of the chain, if there is more
      to come. */
  method Settle(link: Link, request: Frame, next: Frame, content: Readout.Content, frameCount: nat, maxFrames: int,
                ghost plan: Plan, ghost n: nat, ghost before: Progress)
    returns (more: bool, next': Frame, ghost after: Progress)
    requires Grown(link, request, next, plan, n, before, before.state.bit)
    requires GoesOn(plan, n, frameCount, before.state.bit, content)
    requires maxFrames == plan.setup.maxFrames && frameCount == |before.frames| + 1
    modifies request`control, next`next
    ensures Loop(link, request, plan, n, after, 0, more, 0)
    ensures |after.frames| == frameCount && (more ==> after.rest == next')
    ensures next' == next || (fresh(next') && fresh(next'.data))
  {
    next' := next;
    more := Decide(request, content, frameCount, maxFrames, before.state.bit, plan.address);
    if more {
      next' := GoOn(link, request, next, plan, n, before);
      after := With(plan, n, before, next, next');
    } else {
      Finishes(link, request, next, plan, n, before, before.state.bit);
      after := With(plan, n, before, next, null);
    }
  }

  /** One pass of the loop in mbus_sendrecv_request. */
  method Turn(link: Link, request: Frame, next: Frame, retry: nat, frameCount: nat, maxFrames: int,
              ghost plan: Plan, ghost n: nat, ghost before: Progress)
    returns (retry': nat, frameCount': nat, retval: int, more: bool, next': Frame, ghost after: Progress)
    requires Follows(link, plan) && before.rest == next && retry <= plan.setup.maxRetry
    requires Loop(link, request, plan, n, before, retry, true, 0)
    requires maxFrames == plan.setup.maxFrames && frameCount == |before.frames|
    modifies link, link.port, request, next, next.data
    ensures Loop(link, request, plan, n + 1, after, retry', more, retval)
    ensures more ==> after.rest == next' && frameCount' == |after.frames|
    ensures next' == next || (fresh(next') && fresh(next'.data))
    ensures frameCount' == frameCount + 1 || (frameCount' == frameCount && retry' == retry + 1 && more)
    ensures frameCount < Readout.FrameLimit(plan.setup)
  {
    StepLeaves(link, plan, n);
    var result, content := PassOnChain(link, request, next, plan, n, before);
    next', retval, more, retry', frameCount' := next, 0, true, 0, frameCount + 1;
    if result != RecvOk {
      Repeats(link, request, next, plan, n, before, retry, content);
      after := before.(state := plan.StateAt(n + 1));
      retry', frameCount' := retry + 1, frameCount;
    } else if content == Readout.Bad {
      Breaks(link, request, next, plan, n, before);
      after := Stopped(plan, n, before, next);
      retval, more := 1, false;
    } else {
      Grows(link, request, next, plan, n, before, content);
      more, next', after := Settle(link, request, next, content, frameCount + 1, maxFrames, plan, n + 1, before);
    }
  }

  lemma GivesUp(link: Link, request: Frame, plan: Plan, n: nat, at: Progress, retry: nat)
    requires Loop(link, request, plan, n, at, retry, true, 0) && retry > plan.setup.maxRetry
    ensures Loop(link, request, plan, n, at, retry, false, 1)
  {
  }

  ghost function Beginning(plan: Plan): Progress {
    Progress(plan.StateAt(0), [], {}, plan.reply)
  }

  /** The request frame with the frame count bit set. */
  method NewRequest(link: Link, ghost plan: Plan, address: byte, reply: Frame) returns (request: Frame)
    requires Follows(link, plan) && link.port.incoming == [] && reply.Valid()
    requires plan.reply == reply && plan.address == address && plan.from == link.tick
    requires plan.ImageAt(0) == reply.Snapshot() && Agrees(link, plan.earlier, plan.StateAt(0))
    ensures fresh(request) && fresh(request.data)
    ensures Loop(link, request, plan, 0, Beginning(plan), 0, true, 0)
  {
    request := new Frame(Short);
    request.control, request.address := REQUEST_BIT_SET, address;
  }

  /** The loop of mbus_sendrecv_request; `n` is the number of exchanges. */
  method ReadTelegrams(link: Link, request: Frame, reply: Frame, maxDataRetry: nat, maxFrames: int, ghost plan: Plan)
    returns (retval: int, ghost final: Progress, ghost retries: nat, ghost n: nat)
    requires Follows(link, plan)
    requires plan.setup.maxRetry == maxDataRetry && plan.setup.maxFrames == maxFrames && plan.reply == reply
    requires Loop(link, request, plan, 0, Beginning(plan), 0, true, 0)
    modifies link, link.port, request, reply, reply.data
    ensures Loop(link, request, plan, n, final, retries, false, retval)
  {
    final, retval, n := Beginning(plan), 0, 0;
    var moreFrames, retry: nat, frameCount: nat, next := true, 0, 0, reply;
    while moreFrames
      invariant Loop(link, request, plan, n, final, retry, moreFrames, retval)
      invariant moreFrames ==> frameCount == |final.frames|
      invariant moreFrames ==> final.rest == next && (next == reply || (fresh(next) && fresh(next.data)))
      decreases if moreFrames then 1 else 0, Readout.FrameLimit(plan.setup) - frameCount, maxDataRetry + 1 - retry
    {
      if retry > maxDataRetry {
        GivesUp(link, request, plan, n, final, retry);
        retval, moreFrames := 1, false;
      } else {
        retry, frameCount, retval, moreFrames, next, final :=
          Turn(link, request, next, retry, frameCount, maxFrames, plan, n, final);
        n := n + 1;
      }
    }
    retries := retry;
  }

  // ---------------------------------------------------------------- the call

  /** Entry n + 1 of the line is entry n with one exchange more. */
  predicate NextAt(link: Link, plan: Plan, n: nat) {
    plan.line(n + 1) == After(link, plan.setup, plan.from + n, plan.line(n))
  }

  /** The line of the plan is the course of the protocol for a call that starts with the frame `im`. */
  ghost predicate IsCourse(link: Link, plan: Plan, im: Image) {
    && plan.line(0) == Trace([], Readout.Start(plan.setup), im, Readout.RequestLost, im)
    && forall n: nat {:trigger NextAt(link, plan, n)} :: NextAt(link, plan, n)
  }

  /** What holds of every entry. */
  predicate Known(c: Readout.Setup, trace: Trace) {
    var s := trace.state;
    && s == Readout.Run(c, trace.fates) && GoodImage(trace.image) && Readout.Sound(c, s)
    && (s.status == Readout.Running ==> s.held == ContentOfImage(trace.image) && |s.taken| < Readout.FrameLimit(c))
  }

  predicate KnownAt(plan: Plan, n: nat) {
    Known(plan.setup, plan.line(n))
  }

  lemma {:induction false} AllKnown(plan: Plan, n: nat)
    requires KnownAt(plan, 0) && forall k: nat :: KnownAt(plan, k) ==> KnownAt(plan, k + 1)
    ensures KnownAt(plan, n)
  {
    if n > 0 {
      AllKnown(plan, n - 1);
    }
  }

  lemma CourseIsKnown(link: Link, plan: Plan, im: Image, n: nat)
    requires link.Valid() && plan.setup.content == link.content
    requires plan.setup.held == ContentOfImage(im) && GoodImage(im)
    requires IsCourse(link, plan, im)
    ensures Known(plan.setup, plan.line(n))
  {
    FirstIsKnown(link, plan, im);
    forall k: nat | KnownAt(plan, k) ensures KnownAt(plan, k + 1) {
      KnownNext(link, plan, im, k);
    }
    AllKnown(plan, n);
  }

  lemma FirstIsKnown(link: Link, plan: Plan, im: Image)
    requires plan.setup.held == ContentOfImage(im) && GoodImage(im) && IsCourse(link, plan, im)
    ensures Known(plan.setup, plan.line(0))
  {
    Readout.RunKeeps(plan.setup, []);
  }

  lemma KnownNext(link: Link, plan: Plan, im: Image, k: nat)
    requires link.Valid() && plan.setup.content == link.content && IsCourse(link, plan, im)
    requires Known(plan.setup, plan.line(k))
    ensures Known(plan.setup, plan.line(k + 1))
  {
    assert NextAt(link, plan, k);
    KnownThere(link, plan, k, plan.line(k), plan.line(k + 1));
  }

  lemma KnownThere(link: Link, plan: Plan, k: nat, before: Trace, after: Trace)
    requires link.Valid() && plan.setup.content == link.content && Known(plan.setup, before)
    requires after == After(link, plan.setup, plan.from + k, before)
    ensures Known(plan.setup, after)
  {
    KnownAfter(link, plan.setup, plan.from + k, before);
  }

  lemma KnownAfter(link: Link, c: Readout.Setup, tick: nat, before: Trace)
    requires link.Valid() && c.content == link.content && Known(c, before)
    ensures Known(c, After(link, c, tick, before))
  {
    var s, t, after := before.state, After(link, c, tick, before).state, After(link, c, tick, before);
    AfterRuns(link, c, tick, before);
    Readout.RunKeeps(c, after.fates);
    AfterIsGood(link, c, tick, before);
    if t.status == Readout.Running {
      Readout.ContinuesBelowLimit(c, t.taken);
      HeldFollows(link, c, tick, before);
    }
  }

  lemma AfterIsGood(link: Link, c: Readout.Setup, tick: nat, before: Trace)
    requires GoodImage(before.image)
    ensures GoodImage(After(link, c, tick, before).image)
  {
    var t := After(link, c, tick, before).state;
    BlankIsBad();
    AfterParseIsGood(before.image, link.Answer(t.slavePos, tick)[..End(link.Answer(t.slavePos, tick))]);
  }

  lemma CourseStep(link: Link, plan: Plan, im: Image, n: nat)
    requires Known(plan.setup, plan.line(n)) && IsCourse(link, plan, im)
    ensures StepAt(link, plan, n)
  {
    assert NextAt(link, plan, n);
    KnownStep(link, plan, n);
  }

  lemma KnownStep(link: Link, plan: Plan, n: nat)
    requires Known(plan.setup, plan.line(n)) && NextAt(link, plan, n)
    ensures StepAt(link, plan, n)
  {
    var s := plan.StateAt(n);
    if s.status == Readout.Running {
      StepMoves(plan.setup, s, link.FateOf(plan.from + n, plan.ImageAt(n)));
    }
  }

  lemma CourseFollows(link: Link, plan: Plan, im: Image)
    requires link.Valid() && plan.setup.content == link.content
    requires plan.setup.held == ContentOfImage(im) && GoodImage(im)
    requires IsCourse(link, plan, im)
    ensures Follows(link, plan)
  {
    forall n {:trigger StepAt(link, plan, n)} ensures StepAt(link, plan, n) {
      CourseIsKnown(link, plan, im, n);
      CourseStep(link, plan, im, n);
    }
  }

  /** There is such a course for every call. */
  lemma PlanFor(link: Link, address: byte, c: Readout.Setup, reply: Frame, from: nat, earlier: seq<byte>, im: Image)
    returns (plan: Plan)
    ensures plan.address == address && plan.setup == c && plan.reply == reply
    ensures plan.from == from && plan.earlier == earlier
    ensures IsCourse(link, plan, im)
  {
    plan := Plan(address, c, reply, from, earlier, (n: nat) => Line(link, c, from, im, n));
    forall n: nat {:trigger NextAt(link, plan, n)} ensures NextAt(link, plan, n) {
      LineOnPlan(link, plan, im, n);
    }
  }

  lemma LineOnPlan(link: Link, plan: Plan, im: Image, n: nat)
    requires plan.line == ((k: nat) => Line(link, plan.setup, plan.from, im, k))
    ensures NextAt(link, plan, n)
  {
    LineStep(link, plan.setup, plan.from, im, n);
  }

  /** mbus_sendrecv_request: wherever the slave is, whatever the caller's frame holds, and over every
      pattern of losses and garbled replies, the frames of the reply hold exactly what the protocol
      takes. `plan` has the course of the protocol, `n` is the number of exchanges, and `final` is the
      state after them, with these frames in order. */
  method SendRecvRequest(link: Link, address: int, reply: Frame, maxDataRetry: nat, maxFrames: int)
    returns (retval: int, ghost final: Progress, ghost plan: Plan, ghost n: nat)
    requires link.Valid() && link.port.incoming == [] && reply.Valid() && link.HasAnswered()
    modifies link, link.port, reply, reply.data
    ensures link.tick == old(link.tick) + n && (!(0 <= address <= 0xFF) ==> retval == 1 && n == 0)
    ensures
      var im := old(reply.Snapshot());
      && plan.setup == Protocol(link, old(link.slaveBit), old(link.slavePos), im, maxDataRetry, maxFrames)
      && plan.from == old(link.tick) && IsCourse(link, plan, im)
    ensures 0 <= address <= 0xFF ==>
              && final.state == plan.StateAt(n) == Readout.Run(plan.setup, plan.line(n).fates)
              && final.state.status != Readout.Running && Agrees(link, old(link.requests), final.state)
              && retval == (if final.state.status == Readout.Complete then 0 else 1)
              && Chain(final.frames, final.state.taken, final.rest, link, final.used)
              && StartsWith(final.frames, final.rest, reply)
              && (retval == 0 ==> final.rest == null)
  {
    ghost var im := reply.Snapshot();
    ghost var c := Protocol(link, link.slaveBit, link.slavePos, im, maxDataRetry, maxFrames);
    plan := PlanFor(link, if 0 <= address <= 0xFF then address else 0, c, reply, link.tick, link.requests, im);
    final, retval, n := Beginning(plan), 1, 0;
    if 0 <= address <= 0xFF {
      CourseFollows(link, plan, im);
      StartAgrees(link, plan);
      var request := NewRequest(link, plan, address, reply);
      ghost var retries;
      retval, final, retries, n := ReadTelegrams(link, request, reply, maxDataRetry, maxFrames, plan);
      CourseIsKnown(link, plan, im, n);
    }
  }

  lemma StartAgrees(link: Link, plan: Plan)
    requires link.HasAnswered() && plan.StateAt(0) == Readout.Start(plan.setup) && plan.earlier == link.requests
    requires plan.setup.slaveBit == link.slaveBit
    requires plan.setup.first == if link.slaveBit then link.slavePos else link.slavePos + 1
    ensures Agrees(link, plan.earlier, plan.StateAt(0))
  {
    assert link.requests + [] == link.requests;
  }

  lemma RequestsSent(link: Link, c: Readout.Setup, fates: seq<Readout.Fate>, earlier: seq<byte>, s: Readout.State)
    requires Agrees(link, earlier, s) && s == Readout.Run(c, fates)
    ensures |link.requests| - |earlier| <= Readout.FrameLimit(c) * (c.maxRetry + 1)
  {
    OneByteARequest(s.log);
    Readout.RequestsAreBounded(c, fates);
  }

  lemma ProtocolTakes(c: Readout.Setup, fates: seq<Readout.Fate>, s: Readout.State)
    requires s == Readout.Run(c, fates)
    ensures forall i :: 0 <= i < |s.taken| && s.taken[i].Reply? ==> s.taken[i].number == c.first + i
    ensures Readout.Genuine(s.taken) <==> !Readout.MeetsStale(c, fates)
    ensures s.status == Readout.Complete ==>
              var k := |s.taken|;
              && 0 < k <= Readout.FrameLimit(c)
              && (forall i :: 0 <= i < k - 1 ==> Readout.ContentOf(c, s.taken[i]) == Readout.More)
              && Readout.ContentOf(c, s.taken[k - 1]) != Readout.Bad
              && (k < Readout.FrameLimit(c) ==> Readout.ContentOf(c, s.taken[k - 1]) == Readout.Last)
  {
    Readout.TakenInOrder(c, fates);
    Readout.GenuineExactly(c, fates);
    if s.status == Readout.Complete {
      Readout.CompleteStopsRight(c, fates);
    }
  }

  /** What a caller of mbus_sendrecv_request gets: the requests stay within their bound; each frame holds
      the telegram of its place or, after a leading E5, something else that parses; there is no such
      frame if and only if no leading E5 met a frame that parses; and on success the frames end with the
      first one without more to follow or with the frame limit. */
  lemma WhatTheCallerGets(link: Link, plan: Plan, fates: seq<Readout.Fate>, earlier: seq<byte>, final: Progress)
    requires plan.setup.content == link.content && Agrees(link, earlier, final.state)
    requires final.state == Readout.Run(plan.setup, fates)
    requires Chain(final.frames, final.state.taken, final.rest, link, final.used)
    ensures |link.requests| - |earlier| <= Readout.FrameLimit(plan.setup) * (plan.setup.maxRetry + 1)
    ensures |final.frames| == |final.state.taken|
    ensures forall i :: 0 <= i < |final.frames| ==>
              final.frames[i].Valid() && Holds(link, final.frames[i].Snapshot(), final.state.taken[i])
    ensures forall i :: 0 <= i < |final.frames| && final.state.taken[i].Reply? ==>
              final.state.taken[i].number == plan.setup.first + i
    ensures Readout.Genuine(final.state.taken) <==> !Readout.MeetsStale(plan.setup, fates)
    ensures final.state.status == Readout.Complete ==>
              var k, items := |final.frames|, final.state.taken;
              && 0 < k <= Readout.FrameLimit(plan.setup)
              && (forall i :: 0 <= i < k - 1 ==> Readout.ContentOf(plan.setup, items[i]) == Readout.More)
              && Readout.ContentOf(plan.setup, items[k - 1]) != Readout.Bad
              && (k < Readout.FrameLimit(plan.setup) ==> Readout.ContentOf(plan.setup, items[k - 1]) == Readout.Last)
  {
    RequestsSent(link, plan.setup, fates, earlier, final.state);
    ProtocolTakes(plan.setup, fates, final.state);
    ChainHolds(final.frames, final.state.taken, final.rest, link, final.used);
  }
}
