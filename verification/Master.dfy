/** The master's handle: sending, receiving, purging, selecting and probing. */
module Master {
  import opened Bytes
  import opened Telegram
  import opened FrameBuffer
  import opened Framing
  import opened Port
  import opened SecondaryAddress
  import opened Bus

  const SEND_BUFFER := 384

  /** mbus_purge_frames: receive until neither a telegram nor garbage comes. Prompt reads leave the
      line drained; in any case only pending bytes are consumed. */
  method PurgeFrames(port: Port) returns (received: bool)
    modifies port
    ensures exists n :: 0 <= n <= |old(port.incoming)| && port.incoming == old(port.incoming)[n..]
    ensures received ==> port.incoming != old(port.incoming)
    ensures port.Prompt() ==> port.incoming == [] && received == (old(port.incoming) != [])
  {
    var reply := new Frame(AnyKind);
    received := false;
    ghost var s := port.incoming;
    ghost var n := 0;
    while true
      invariant reply.Valid() && fresh(reply) && fresh(reply.data)
      invariant 0 <= n <= |s| && port.incoming == s[n..]
      invariant received == (n > 0)
      decreases |port.incoming|
    {
      var result;
      ghost var taken;
      result, taken := SerialReceive(port, reply);
      n := n + taken;
      if result != RecvOk && result != RecvInvalid {
        break;
      }
      received := true;
    }
  }

  /** A reply is received, and unless there was none, what is pending behind it is purged. */
  method ReceiveAndPurge(port: Port, reply: Frame) returns (result: RecvResult, more: bool)
    requires port.Prompt() && reply.Valid()
    modifies port, reply, reply.data
    ensures reply.Valid() && port.incoming == [] && result == Outcome(old(port.incoming))
    ensures more <==> End(old(port.incoming)) < |old(port.incoming)|
    ensures reply.Snapshot() == AfterParse(old(reply.Snapshot()), old(port.incoming)[..End(old(port.incoming))])
    ensures reply.next == if old(port.incoming) != [] then null else old(reply.next)
  {
    ghost var s := port.incoming;
    ghost var taken;
    result, taken := SerialReceive(port, reply);
    more := false;
    if result != RecvTimeout {
      more := PurgePending(port, s[taken..]);
    }
  }

  /** A purge of a prompt line. */
  method PurgePending(port: Port, ghost rest: seq<byte>) returns (more: bool)
    requires port.Prompt() && port.incoming == rest
    modifies port
    ensures port.incoming == [] && (more <==> rest != [])
  {
    more := PurgeFrames(port);
  }

  /** mbus_send_frame on a serial line: pack into a local buffer and write it out. */
  method SendFrame(bus: Bus, frame: Frame) returns (code: int, ghost telegram: seq<byte>)
    requires bus.Valid() && frame.Valid() && Sendable(frame.View())
    modifies bus, bus.port`incoming, frame
    ensures code == 0 && telegram == Wire(Sealed(old(frame.View())))
    ensures bus.sent == old(bus.sent) + 1
    ensures RequestOf(telegram).Select? ==>
              && bus.selected == Chosen(bus.devices, RequestOf(telegram).data) && bus.selects == old(bus.selects) + 1
              && bus.port.incoming ==
                   old(bus.port.incoming) + OnLine(bus.selected, Acknowledge, bus.ackNoise(old(bus.sent)))
    ensures RequestOf(telegram) == ReadOut ==>
              && bus.selected == old(bus.selected) && bus.selects == old(bus.selects)
              && bus.port.incoming == old(bus.port.incoming) + OnLine(bus.selected, SendData, bus.noise(old(bus.sent)))
  {
    var buffer := new byte[SEND_BUFFER](_ => 0);
    PackedIsTelegram(frame.View());
    telegram := Wire(Sealed(frame.View()));
    code := frame.PackInto(buffer);
    assert buffer[..code] == telegram;
    bus.Transmit(buffer[..code]);
    code := 0;
  }

  /** mbus_send_select_frame. */
  method SendSelect(bus: Bus, mask: string) returns (code: int)
    requires bus.Valid()
    modifies bus, bus.port`incoming
    ensures !IsSecondaryAddress(mask) ==>
              code == -1 && bus.port.incoming == old(bus.port.incoming) && bus.selects == old(bus.selects)
              && bus.selected == old(bus.selected)
    ensures IsSecondaryAddress(mask) ==>
              && code == 0 && bus.selected == Matching(bus.devices, mask) && bus.selects == old(bus.selects) + 1
              && bus.port.incoming ==
                 old(bus.port.incoming) + OnLine(bus.selected, Acknowledge, bus.ackNoise(old(bus.sent)))
  {
    var frame := new Frame(Long);
    code := SelectPack(frame, mask);
    if code == -1 {
      return;
    }
    SelectArrives(mask);
    assert frame.View() == SelectFields(mask);
    ghost var telegram;
    code, telegram := SendFrame(bus, frame);
  }

  /** mbus_send_request_frame to the network layer address. */
  method SendRequest(bus: Bus) returns (code: int)
    requires bus.Valid()
    modifies bus, bus.port`incoming
    ensures code == 0 && bus.selected == old(bus.selected) && bus.selects == old(bus.selects)
    ensures bus.port.incoming == old(bus.port.incoming) + OnLine(bus.selected, SendData, bus.noise(old(bus.sent)))
  {
    var frame := new Frame(Short);
    frame.control, frame.address := REQ_UD2, NETWORK_LAYER;
    ReadOutArrives();
    assert frame.View() == RequestFields;
    ghost var telegram;
    code, telegram := SendFrame(bus, frame);
  }

  /** mbus_select_secondary_address: the verdict is the classification of what is pending once the
      select has gone out. */
  method SelectSecondary(bus: Bus, mask: string) returns (verdict: Probe)
    requires bus.Valid()
    modifies bus, bus.port
    ensures !IsSecondaryAddress(mask) ==>
              verdict == ProbeError && bus.port.incoming == old(bus.port.incoming) && bus.selects == old(bus.selects)
    ensures IsSecondaryAddress(mask) ==>
              var s := old(bus.port.incoming) + OnLine(bus.selected, Acknowledge, bus.ackNoise(old(bus.sent)));
              && bus.selected == Matching(bus.devices, mask) && bus.selects == old(bus.selects) + 1
              && verdict == Classify(s)
              && bus.port.incoming == if verdict == Nothing then s[End(s)..] else []
  {
    var code := SendSelect(bus, mask);
    if code == -1 {
      return ProbeError;
    }
    ghost var s := bus.port.incoming;
    var reply := new Frame(AnyKind);
    var result;
    ghost var taken;
    result, taken := SerialReceive(bus.port, reply);
    if result == RecvTimeout {
      verdict := Nothing;
    } else if result == RecvInvalid {
      var more := PurgeFrames(bus.port);
      verdict := Collision;
    } else if reply.kind == Ack {
      var more := PurgeFrames(bus.port);
      verdict := if more then Collision else Single;
    } else {
      verdict := Nothing;
    }
  }

  /** A select on a drained ideal bus tells none, one and several matching devices apart, except that
      several may look like one. */
  lemma IdealSelect(bus: Bus, mask: string, n: nat)
    requires bus.Valid() && IsSecondaryAddress(mask)
    ensures
      var m := Matching(bus.devices, mask);
      var s := OnLine(m, Acknowledge, bus.ackNoise(n));
      && (Classify(s) == Nothing <==> m == {})
      && (|m| == 1 ==> Classify(s) == Single)
      && (|m| > 1 ==> Classify(s) == Single || Classify(s) == Collision)
      && (m == {} ==> s[End(s)..] == [])
  {
    ClassifyExactly(OnLine(Matching(bus.devices, mask), Acknowledge, bus.ackNoise(n)));
  }
}
