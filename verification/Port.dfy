/** The line as the master's read calls see it, and the two receive loops. */
module Port {
  import opened Bytes
  import opened Telegram
  import opened FrameBuffer
  import opened Framing

  const SERIAL_BUFFER := 384
  const TCP_BUFFER := 2048

  /** What one read call meets: at most `limit` bytes ready in time, a closed peer, or a failure. */
  datatype Event = Deliver(limit: nat) | Closed | Broken

  datatype ReadResult = Got(count: nat) | Idle | HungUp | Failure

  class Port {
    /** Bytes sent to the master and not yet read. */
    var incoming: seq<byte>
    /** What each read call meets, by number. */
    const script: nat -> Event
    var tick: nat
    /** How many read calls brought nothing. */
    ghost var idles: nat

    constructor (script: nat -> Event)
      ensures this.script == script && incoming == [] && tick == 0 && idles == 0
    {
      this.script := script;
      incoming, tick, idles := [], 0, 0;
    }

    /** Reads bring nothing only when nothing is pending, and never fail. */
    ghost predicate Prompt() {
      forall k :: script(k).Deliver? && script(k).limit > 0
    }

    method Read(buffer: array<byte>, at: nat, want: nat) returns (r: ReadResult)
      requires want > 0 && at + want <= buffer.Length
      modifies this, buffer
      ensures tick == old(tick) + 1
      ensures r.Failure? <==> script(old(tick)).Broken?
      ensures r.Got? ==> 0 < r.count <= want && r.count <= |old(incoming)|
      ensures r == Idle ==> old(incoming) == [] || script(old(tick)) == Deliver(0)
      ensures r == HungUp ==> script(old(tick)).Closed?
      ensures incoming == old(incoming)[if r.Got? then r.count else 0..]
      ensures idles == old(idles) + if r == Idle || r == HungUp then 1 else 0
      ensures buffer[..at] == old(buffer[..at])
      ensures r.Got? ==> buffer[at..at + r.count] == old(incoming)[..r.count]
    {
      var event := script(tick);
      tick := tick + 1;
      match event {
        case Broken =>
          r := Failure;
        case Closed =>
          r := HungUp;
          idles := idles + 1;
        case Deliver(limit) =>
          var n := if limit < want then limit else want;
          n := if n < |incoming| then n else |incoming|;
          if n == 0 {
            r := Idle;
            idles := idles + 1;
          } else {
            forall k | 0 <= k < n {
              buffer[at + k] := incoming[k];
            }
            incoming := incoming[n..];
            r := Got(n);
          }
      }
    }
  }

  /** A parse that asks for more leaves nothing behind, in the fields or in the data memory. */
  lemma ReparseSnapshot(im: Image, a: seq<byte>, b: seq<byte>)
    requires GoodImage(im) && a <= b && (a == [] || Code(a) > 0)
    ensures AfterParse(AfterParse(im, a), b) == AfterParse(im, b)
  {
    CodeIgnoresOldFields(im.fields, a);
    ReparseFromPrefix(im.fields, a, b);
    assert Parse(im.fields, a).fields.data == im.fields.data;
    AfterParseIsGood(im, a);
  }

  /** The parse step of a receive loop: `before` bytes were parsed already, now there are `len`. */
  method ParseSoFar(frame: Frame, buffer: array<byte>, len: nat, ghost s: seq<byte>, ghost im: Image, ghost before: nat)
    returns (remaining: int)
    requires frame.Valid() && buffer != frame.data
    requires before <= len <= |s| && len <= buffer.Length && buffer[..len] == s[..len]
    requires before == 0 || Code(s[..before]) > 0
    requires GoodImage(im) && frame.Snapshot() == AfterParse(im, s[..before])
    modifies frame, frame.data
    ensures frame.Valid() && frame.next == if len > 0 then null else old(frame.next)
    ensures remaining == Code(s[..len]) && frame.Snapshot() == AfterParse(im, s[..len])
  {
    ReparseSnapshot(im, s[..before], s[..len]);
    CodeIgnoresOldFields(frame.View(), s[..len]);
    remaining := frame.ParseBuffer(buffer, len);
  }

  /** One read of a receive loop that holds `len` bytes of the stream `s`. */
  method ReadSome(port: Port, buffer: array<byte>, len: nat, want: nat, ghost s: seq<byte>) returns (r: ReadResult)
    requires len <= |s| && port.incoming == s[len..] && len + want <= buffer.Length && buffer[..len] == s[..len]
    requires want == if len == 0 then 1 else Code(s[..len])
    requires want > 0
    modifies port, buffer
    ensures port.tick == old(port.tick) + 1
    ensures r == Failure <==> port.script(old(port.tick)).Broken?
    ensures r == HungUp ==> port.script(old(port.tick)).Closed?
    ensures r == Idle ==> len == |s| || port.script(old(port.tick)) == Deliver(0)
    ensures port.idles == old(port.idles) + if r == Idle || r == HungUp then 1 else 0
    ensures
      var next := if r.Got? then len + r.count else len;
      && len <= next <= |s| && next <= buffer.Length && port.incoming == s[next..] && buffer[..next] == s[..next]
      && (r.Got? ==> len < next && (Code(s[..next]) <= 0 ==> StopAt(s, len, want) == next)
                     && (Code(s[..next]) > 0 ==> next + Code(s[..next]) <= 261
                                                 && StopAt(s, next, Code(s[..next])) == StopAt(s, len, want)))
  {
    r := port.Read(buffer, len, want);
    if r.Got? {
      PartialReadKeepsStop(s, len, want, r.count);
      assert s[..len + r.count] == s[..len] + s[len..][..r.count];
      assert buffer[..len + r.count] == buffer[..len] + buffer[len..len + r.count];
    }
  }

  /** A receive loop that holds `len` bytes of the stream `s` and wants `remaining` more. */
  ghost predicate Midway(port: Port, frame: Frame, buffer: array<byte>, s: seq<byte>, im: Image,
                         len: nat, remaining: int)
    reads port, frame, frame.data, buffer
  {
    && GoodImage(im) && frame.Valid() && len <= |s| && frame.Snapshot() == AfterParse(im, s[..len])
    && len <= buffer.Length && port.incoming == s[len..] && buffer[..len] == s[..len]
    && (len > 0 ==> remaining == Code(s[..len]) && frame.next == null)
    && (remaining > 0 ==>
          && (len == 0 ==> remaining == 1)
          && len + remaining <= 261 && StopAt(s, len, remaining) == End(s))
    && (remaining <= 0 && len > 0 ==> len == End(s))
  }

  lemma NothingParsed(im: Image)
    requires GoodImage(im)
    ensures AfterParse(im, []) == im
  {
  }

  /** How the loop ends: `broken` by a failing read, or with nothing, or by the parser's verdict, or by
      the third empty read. */
  predicate Ended(s: seq<byte>, len: nat, remaining: int, timeouts: nat, broken: bool) {
    && len <= End(s) && timeouts <= 3
    && (len > 0 ==> remaining == Code(s[..len]))
    && (broken ==> timeouts < 3)
    && (!broken && len == 0 ==> timeouts == 1)
    && (!broken && len > 0 ==> if remaining <= 0 then timeouts < 3 && len == End(s) else timeouts == 3)
  }

  /** One pass of the loop in mbus_serial_recv_frame: `stop` when the loop ends, `broken` when a read
      failed. */
  method SerialStep(port: Port, frame: Frame, buffer: array<byte>, len: nat, remaining: int, timeouts: nat,
                    ghost s: seq<byte>, ghost im: Image)
    returns (len': nat, remaining': int, timeouts': nat, stop: bool, broken: bool)
    requires Midway(port, frame, buffer, s, im, len, remaining) && remaining > 0
    requires buffer.Length == SERIAL_BUFFER && buffer != frame.data
    requires timeouts < 3 && (len == 0 ==> timeouts == 0)
    modifies port, frame, frame.data, buffer
    ensures Midway(port, frame, buffer, s, im, len', remaining')
    ensures frame.next == if len' > 0 then null else old(frame.next)
    ensures port.tick == old(port.tick) + 1 && port.idles == old(port.idles) + timeouts' - timeouts
    ensures len <= len' && timeouts <= timeouts' <= timeouts + 1
    ensures broken <==> port.script(old(port.tick)).Broken?
    ensures broken ==> stop && len' == len && timeouts' == timeouts
    ensures stop ==> Ended(s, len', remaining', timeouts', broken)
    ensures !stop ==> len' > 0 && remaining' > 0 && timeouts' < 3 && (len' > len || timeouts' > timeouts)
    ensures port.Prompt() && timeouts' > timeouts ==> len == |s|
  {
    len', remaining', timeouts', stop, broken := len, remaining, timeouts, true, true;
    if len + remaining > SERIAL_BUFFER {
      assert false;
      return;
    }
    var r := ReadSome(port, buffer, len, remaining, s);
    broken := r == Failure;
    if r.Got? {
      len' := len + r.count;
    } else if !broken {
      timeouts' := timeouts + 1;
    }
    if !broken && (r.Got? || timeouts' < 3) {
      remaining' := ParseSoFar(frame, buffer, len', s, im, len);
      stop := remaining' <= 0;
    }
  }

  /** The loop after `count` reads. */
  ghost predicate Running(port: Port, s: seq<byte>, count: int, prompt: bool,
                          len: nat, remaining: int, timeouts: nat, stop: bool, broken: bool)
    reads port
  {
    && (if stop then Ended(s, len, remaining, timeouts, broken) else remaining > 0 && timeouts < 3 && !broken)
    && count >= 0 && (stop || len > 0 ==> 0 < count <= port.tick)
    && (len == 0 ==> if stop then broken || count == 1 else count == 0 && timeouts == 0)
    && (broken ==> stop && port.script(port.tick - 1).Broken?)
    && (prompt ==> !broken && (timeouts > 0 ==> len == |s|))
  }

  /** The loop of mbus_serial_recv_frame. */
  method SerialLoop(port: Port, frame: Frame, buffer: array<byte>, ghost s: seq<byte>, ghost im: Image)
    returns (len: nat, remaining: int, timeouts: nat, broken: bool)
    requires buffer.Length == SERIAL_BUFFER && buffer != frame.data
    requires Midway(port, frame, buffer, s, im, 0, 1)
    modifies port, frame, frame.data, buffer
    ensures frame.Valid() && frame.next == if len > 0 then null else old(frame.next)
    ensures Ended(s, len, remaining, timeouts, broken)
    ensures frame.Snapshot() == AfterParse(im, s[..len]) && port.incoming == s[len..]
    ensures port.idles == old(port.idles) + timeouts && port.tick > old(port.tick)
    ensures broken ==> port.script(port.tick - 1).Broken?
    ensures !broken && len == 0 ==> port.tick == old(port.tick) + 1
    ensures port.Prompt() ==> !broken && len == End(s)
  {
    ghost var prompt := port.Prompt();
    var stop := false;
    remaining, len, timeouts, broken := 1, 0, 0, false;
    while !stop
      invariant Midway(port, frame, buffer, s, im, len, remaining)
      invariant len == 0 ==> frame.next == old(frame.next)
      invariant port.idles == old(port.idles) + timeouts
      invariant Running(port, s, port.tick - old(port.tick), prompt, len, remaining, timeouts, stop, broken)
      decreases |s| - len, 3 - timeouts, !stop
    {
      len, remaining, timeouts, stop, broken := SerialStep(port, frame, buffer, len, remaining, timeouts, s, im);
    }
  }

  /** mbus_serial_recv_frame: read and parse until the parser asks for no more; the third empty
      read gives up. `taken` is the number of bytes consumed. */
  method SerialReceive(port: Port, frame: Frame) returns (result: RecvResult, ghost taken: nat)
    requires frame.Valid()
    modifies port, frame, frame.data
    ensures frame.Valid() && frame.next == if taken > 0 then null else old(frame.next)
    ensures taken <= |old(port.incoming)| && port.incoming == old(port.incoming)[taken..]
    ensures port.idles >= old(port.idles) && port.tick > old(port.tick)
    ensures Received(old(port.incoming), old(frame.View()), frame.View(), result, taken, port.idles - old(port.idles))
    ensures frame.Snapshot() == AfterParse(old(frame.Snapshot()), old(port.incoming)[..taken])
    ensures result == RecvError ==> port.script(port.tick - 1).Broken?
    ensures result == RecvTimeout ==> port.tick == old(port.tick) + 1
    ensures port.Prompt() ==> result == Outcome(old(port.incoming)) && taken == End(old(port.incoming))
  {
    var buffer := new byte[SERIAL_BUFFER](_ => 0);
    NothingParsed(frame.Snapshot());
    var len, remaining, timeouts, broken := SerialLoop(port, frame, buffer, port.incoming, frame.Snapshot());
    result := if broken then RecvError
    else if len == 0 then RecvTimeout else if remaining != 0 then RecvInvalid else RecvOk;
    taken := len;
  }

  /** One pass of the loop in mbus_tcp_recv_frame: a read that brings something is parsed. */
  method TcpStep(port: Port, frame: Frame, buffer: array<byte>, len: nat, remaining: int,
                 ghost s: seq<byte>, ghost im: Image)
    returns (r: ReadResult, len': nat, remaining': int)
    requires Midway(port, frame, buffer, s, im, len, remaining) && remaining > 0
    requires len + remaining <= buffer.Length && buffer != frame.data
    modifies port, frame, frame.data, buffer
    ensures Midway(port, frame, buffer, s, im, len', remaining')
    ensures frame.next == if len' > 0 then null else old(frame.next)
    ensures port.tick == old(port.tick) + 1
    ensures port.idles == old(port.idles) + if r == Idle || r == HungUp then 1 else 0
    ensures if r.Got? then len' > len else len' == len && remaining' == remaining
    ensures r == Failure ==> port.script(old(port.tick)).Broken?
    ensures r == HungUp ==> port.script(old(port.tick)).Closed?
    ensures r == Idle ==> len == |s| || port.script(old(port.tick)) == Deliver(0)
    ensures port.Prompt() ==> r.Got? || (r == Idle && len == |s|)
  {
    len', remaining' := len, remaining;
    r := ReadSome(port, buffer, len, remaining, s);
    if r.Got? {
      len' := len + r.count;
      remaining' := ParseSoFar(frame, buffer, len', s, im, len);
    }
  }

  /** mbus_tcp_recv_frame: the same loop; an empty line is a timeout, a closed one a reset. */
  method TcpReceive(port: Port, frame: Frame) returns (result: RecvResult, ghost taken: nat)
    requires frame.Valid()
    modifies port, frame, frame.data
    ensures frame.Valid() && frame.next == if taken > 0 then null else old(frame.next)
    ensures taken <= |old(port.incoming)| && port.incoming == old(port.incoming)[taken..]
    ensures port.idles >= old(port.idles) && port.tick > old(port.tick)
    ensures ReceivedOverTcp(old(port.incoming), old(frame.View()), frame.View(), result, taken,
                            port.idles - old(port.idles))
    ensures result == RecvReset ==> port.script(port.tick - 1).Closed?
    ensures result == RecvError ==> port.script(port.tick - 1).Broken?
    ensures result == RecvTimeout ==> port.incoming == [] || port.script(port.tick - 1) == Deliver(0)
    ensures port.Prompt() ==> taken == End(old(port.incoming))
    ensures port.Prompt() ==>
              result == if taken > 0 && Code(old(port.incoming)[..taken]) <= 0 then Outcome(old(port.incoming))
                        else RecvTimeout
  {
    ghost var s, im := port.incoming, frame.Snapshot();
    NothingParsed(im);
    var buffer := new byte[TCP_BUFFER](_ => 0);
    var remaining, len := 1, 0;
    result, taken := RecvError, 0;
    while remaining > 0
      invariant Midway(port, frame, buffer, s, im, len, remaining) && fresh(buffer)
      invariant frame.next == if len > 0 then null else old(frame.next)
      invariant port.idles == old(port.idles)
      invariant if len == 0 then remaining == 1 && port.tick == old(port.tick) else port.tick > old(port.tick)
      decreases |s| - len, if remaining > 0 then 1 else 0
    {
      if len + remaining > TCP_BUFFER {
        assert false;
        return;
      }
      var r;
      r, len, remaining := TcpStep(port, frame, buffer, len, remaining, s, im);
      if !r.Got? {
        result := if r == Failure then RecvError else if r == HungUp then RecvReset else RecvTimeout;
        taken := len;
        return;
      }
    }
    result := if remaining < 0 then RecvInvalid else RecvOk;
    taken := len;
  }
}
