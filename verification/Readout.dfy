/** Multi-telegram readout as a protocol: a master that toggles its frame count bit after every
    telegram it takes, a slave that repeats its last telegram until the bit toggles, and a line
    that loses requests and loses or garbles replies. Section 5.5 of "The M-Bus: A Documentation".

    A retry reuses the frame of the reply before it, and a rejected reply leaves its bytes there. So a
    reply that is garbled into something with the start byte of an ACK, which is accepted without a
    check sum, makes the master take what the frame still holds. */
module Readout {

  /** What the master makes of a frame: it does not parse, it is the last one, or more follow. */
  datatype Content = Bad | Last | More

  /** What becomes of one request and its reply. A rejected reply leaves a frame that parses to `left`;
      a leading E5 is accepted and leaves the frame as it is. */
  datatype Fate = RequestLost | ReplyLost | Rejected(left: Content) | LeadingAck | Delivered

  /** What the master takes: a telegram by its number in the slave, or what an old frame held. */
  datatype Item = Reply(number: nat) | Stale(content: Content)

  datatype Status = Running | Complete | GaveUp | Broken

  /** The number of a slave's last telegram, -1 before the first. */
  type Position = p: int | -1 <= p witness -1

  /** `first` is the telegram that the slave answers the first request with: the next one if its bit
      is cleared, its last one again if its bit is set already. `held` is what the caller's frame
      parses to before the call. */
  datatype Setup = Setup(
    maxRetry: nat, maxFrames: int, content: nat -> Content, first: nat, slaveBit: bool, held: Content)

  /** One request: its frame count bit, and whether something was accepted after it. */
  datatype Attempt = Attempt(bit: bool, brought: bool)

  /** Master: bit of the next request, failures in a row, what was taken, what the frame to be filled
      parses to. Slave: bit it saw last, number of the telegram it sent last. */
  datatype State = State(
    bit: bool, retry: nat, taken: seq<Item>, status: Status, held: Content,
    slaveBit: bool, slavePos: Position, log: seq<Attempt>)

  /** The master starts with the bit set, and sends no reset. */
  function Start(c: Setup): State {
    State(true, 0, [], Running, c.held, c.slaveBit, if c.slaveBit then c.first else c.first - 1, [])
  }

  /** max_frames of zero or less reads one telegram. */
  function FrameLimit(c: Setup): nat {
    if c.maxFrames > 1 then c.maxFrames else 1
  }

  /** The slave: a toggled bit asks for the next telegram, an unchanged one for the same again. */
  function SlaveHears(s: State): State {
    if s.bit != s.slaveBit then s.(slaveBit := s.bit, slavePos := s.slavePos + 1) else s
  }

  function Failed(c: Setup, s: State): State {
    s.(retry := s.retry + 1, status := if s.retry + 1 > c.maxRetry then GaveUp else Running,
       log := s.log + [Attempt(s.bit, false)])
  }

  /** Something is accepted that parses to `content`; if it goes on, the next frame is blank. */
  function Taken(c: Setup, s: State, item: Item, content: Content): State {
    var n := s.taken + [item];
    var t := s.(retry := 0, taken := n, held := Bad, log := s.log + [Attempt(s.bit, true)]);
    match content
    case Bad => t.(status := Broken)
    case Last => t.(status := Complete)
    case More => if c.maxFrames > 0 && |n| < c.maxFrames then t.(bit := !s.bit) else t.(status := Complete)
  }

  /** A leading E5 is accepted: the master parses what the frame holds. */
  function Acked(c: Setup, s: State): State {
    if s.held == Bad then s.(retry := 0, status := Broken, log := s.log + [Attempt(s.bit, true)])
    else Taken(c, s, Stale(s.held), s.held)
  }

  /** One pass of the master's loop. */
  function Step(c: Setup, s: State, fate: Fate): State {
    if s.status != Running then s
    else
      match fate
      case RequestLost => Failed(c, s)
      case ReplyLost => Failed(c, SlaveHears(s))
      case Rejected(left) => Failed(c, SlaveHears(s)).(held := left)
      case LeadingAck => Acked(c, SlaveHears(s))
      case Delivered =>
        var h := SlaveHears(s);
        if h.slavePos < 0 then Failed(c, h) else Taken(c, h, Reply(h.slavePos), c.content(h.slavePos))
  }

  function Run(c: Setup, fates: seq<Fate>): State {
    if fates == [] then Start(c) else Step(c, Run(c, fates[..|fates| - 1]), fates[|fates| - 1])
  }

  // ---------------------------------------------------------------- what every step keeps

  /** The telegrams among the items have the numbers from `first` on by their places. */
  predicate InOrder(first: nat, items: seq<Item>) {
    items != [] ==>
      var last := items[|items| - 1];
      && InOrder(first, items[..|items| - 1])
      && (last.Reply? ==> last.number == first + |items| - 1)
  }

  /** The master wants telegram first + |taken|; the slave is at it and has seen its bit, or is at the
      one before and has seen the other bit. */
  predicate InStep(c: Setup, s: State) {
    && InOrder(c.first, s.taken)
    && (s.status == Running ==> s.slavePos == c.first + |s.taken| - if s.slaveBit == s.bit then 0 else 1)
  }

  function ContentOf(c: Setup, item: Item): Content {
    match item
    case Reply(n) => c.content(n)
    case Stale(content) => content
  }

  /** After the items, all of which announced more, the limit was not reached. */
  predicate Continues(c: Setup, items: seq<Item>) {
    items != [] ==>
      && Continues(c, items[..|items| - 1]) && ContentOf(c, items[|items| - 1]) == More
      && c.maxFrames > 0 && |items| < c.maxFrames
  }

  /** Bookkeeping: attempts are bounded by frames and retries, and the readout has gone on exactly
      as long as more was announced within the limit. */
  predicate InBounds(c: Setup, s: State) {
    var k, n := |s.taken|, c.maxRetry + 1;
    match s.status
    case Running => s.retry <= c.maxRetry && Continues(c, s.taken) && |s.log| <= Times(k, n) + s.retry
    case GaveUp => s.retry == n && Continues(c, s.taken) && |s.log| <= Times(k, n) + n
    case Complete =>
      && k > 0 && Continues(c, s.taken[..k - 1]) && |s.log| <= Times(k, n)
      && ContentOf(c, s.taken[k - 1]) != Bad
      && (ContentOf(c, s.taken[k - 1]) == More ==> !(c.maxFrames > 0 && k < c.maxFrames))
    case Broken =>
      || (k > 0 && Continues(c, s.taken[..k - 1]) && |s.log| <= Times(k, n))
      || (Continues(c, s.taken) && |s.log| <= Times(k, n) + n)
  }

  function Times(k: nat, n: nat): nat {
    if k == 0 then 0 else Times(k - 1, n) + n
  }

  /** A request carries the bit of the one before it exactly if that one brought nothing. */
  predicate BitsFollow(log: seq<Attempt>) {
    |log| >= 2 ==>
      && BitsFollow(log[..|log| - 1])
      && (log[|log| - 1].bit == log[|log| - 2].bit <==> !log[|log| - 2].brought)
  }

  /** The bit of the next request continues the log. */
  predicate NextBitFollows(s: State) {
    && BitsFollow(s.log)
    && (s.status == Running ==>
          if s.log == [] then s.bit else s.bit == s.log[|s.log| - 1].bit <==> !s.log[|s.log| - 1].brought)
  }

  predicate Sound(c: Setup, s: State) {
    InStep(c, s) && InBounds(c, s) && NextBitFollows(s)
  }

  /** A request that arrives puts the slave at the telegram the master wants. */
  lemma HearingKeeps(c: Setup, s: State)
    requires s.status == Running && Sound(c, s)
    ensures Sound(c, SlaveHears(s)) && SlaveHears(s).slavePos == c.first + |s.taken|
    ensures SlaveHears(s).slaveBit == s.bit
  {
  }

  lemma BitsAppend(log: seq<Attempt>, a: Attempt)
    requires BitsFollow(log)
    requires log == [] || (a.bit == log[|log| - 1].bit <==> !log[|log| - 1].brought)
    ensures BitsFollow(log + [a])
  {
    assert (log + [a])[..|log|] == log;
  }

  lemma FailedKeeps(c: Setup, s: State, held: Content)
    requires s.status == Running && Sound(c, s)
    ensures Sound(c, Failed(c, s).(held := held))
  {
    BitsAppend(s.log, Attempt(s.bit, false));
  }

  lemma ItemsAppend(c: Setup, items: seq<Item>, item: Item)
    ensures InOrder(c.first, items) && (item.Reply? ==> item.number == c.first + |items|)
            ==> InOrder(c.first, items + [item])
    ensures Continues(c, items) && ContentOf(c, item) == More && c.maxFrames > 0 && |items| + 1 < c.maxFrames
            ==> Continues(c, items + [item])
  {
    assert (items + [item])[..|items|] == items;
  }

  lemma TakenInStep(c: Setup, s: State, item: Item)
    requires s.status == Running && InStep(c, s) && s.slaveBit == s.bit
    requires item.Reply? ==> item.number == c.first + |s.taken|
    ensures InStep(c, Taken(c, s, item, ContentOf(c, item)))
  {
    ItemsAppend(c, s.taken, item);
  }

  lemma TakenInBounds(c: Setup, s: State, item: Item)
    requires s.status == Running && InBounds(c, s)
    ensures InBounds(c, Taken(c, s, item, ContentOf(c, item)))
  {
    ItemsAppend(c, s.taken, item);
    assert (s.taken + [item])[..|s.taken|] == s.taken;
    assert Times(|s.taken| + 1, c.maxRetry + 1) == Times(|s.taken|, c.maxRetry + 1) + c.maxRetry + 1;
  }

  lemma TakenBitFollows(c: Setup, s: State, item: Item)
    requires s.status == Running && NextBitFollows(s)
    ensures NextBitFollows(Taken(c, s, item, ContentOf(c, item)))
  {
    BitsAppend(s.log, Attempt(s.bit, true));
  }

  lemma TakenKeeps(c: Setup, s: State, item: Item)
    requires s.status == Running && Sound(c, s) && s.slaveBit == s.bit
    requires item.Reply? ==> item.number == c.first + |s.taken|
    ensures Sound(c, Taken(c, s, item, ContentOf(c, item)))
  {
    TakenInStep(c, s, item);
    TakenInBounds(c, s, item);
    TakenBitFollows(c, s, item);
  }

  lemma AckedKeeps(c: Setup, s: State)
    requires s.status == Running && Sound(c, s) && s.slaveBit == s.bit
    ensures Sound(c, Acked(c, s))
  {
    if s.held == Bad {
      BitsAppend(s.log, Attempt(s.bit, true));
    } else {
      TakenKeeps(c, s, Stale(s.held));
    }
  }

  lemma StepKeeps(c: Setup, s: State, fate: Fate)
    requires Sound(c, s)
    ensures Sound(c, Step(c, s, fate))
  {
    if s.status == Running {
      HearingKeeps(c, s);
      var h := SlaveHears(s);
      match fate
      case RequestLost => FailedKeeps(c, s, s.held);
      case ReplyLost => FailedKeeps(c, h, h.held);
      case Rejected(left) => FailedKeeps(c, h, left);
      case LeadingAck => AckedKeeps(c, h);
      case Delivered => TakenKeeps(c, h, Reply(h.slavePos));
    }
  }

  lemma {:induction false} RunKeeps(c: Setup, fates: seq<Fate>)
    ensures Sound(c, Run(c, fates))
  {
    if fates == [] {
      assert Times(0, c.maxRetry + 1) == 0;
    } else {
      RunKeeps(c, fates[..|fates| - 1]);
      StepKeeps(c, Run(c, fates[..|fates| - 1]), fates[|fates| - 1]);
    }
  }

  lemma {:induction false} TimesIsProduct(k: nat, n: nat)
    ensures Times(k, n) == k * n
  {
    if k > 0 {
      TimesIsProduct(k - 1, n);
      assert k * n == (k - 1) * n + n;
    }
  }

  lemma {:induction false} ContinuesBelowLimit(c: Setup, items: seq<Item>)
    requires Continues(c, items)
    ensures |items| < FrameLimit(c)
    ensures forall i :: 0 <= i < |items| ==> ContentOf(c, items[i]) == More
  {
    if items != [] {
      ContinuesBelowLimit(c, items[..|items| - 1]);
    }
  }

  lemma {:induction false} InOrderAt(first: nat, items: seq<Item>)
    requires InOrder(first, items)
    ensures forall i :: 0 <= i < |items| && items[i].Reply? ==> items[i].number == first + i
  {
    if items != [] {
      InOrderAt(first, items[..|items| - 1]);
    }
  }

  // ---------------------------------------------------------------- main results

  /** Whatever is lost or garbled, and wherever the slave was before the call: a telegram that is taken
      stands at its own place among the telegrams from `first` on. None is skipped for another and none
      is taken twice. */
  lemma TakenInOrder(c: Setup, fates: seq<Fate>)
    ensures
      var taken := Run(c, fates).taken;
      forall i :: 0 <= i < |taken| && taken[i].Reply? ==> taken[i].number == c.first + i
  {
    RunKeeps(c, fates);
    InOrderAt(c.first, Run(c, fates).taken);
  }

  /** What the frame to be filled parses to after these fates: what the last rejected reply left, or
      what the caller's frame held, or nothing once a new frame is used. */
  function HeldAfter(c: Setup, fates: seq<Fate>): Content {
    if fates == [] then c.held
    else
      match fates[|fates| - 1]
      case Rejected(left) => left
      case LeadingAck | Delivered => Bad
      case RequestLost | ReplyLost => HeldAfter(c, fates[..|fates| - 1])
  }

  /** Somewhere a leading E5 met a frame that parses. */
  predicate MeetsStale(c: Setup, fates: seq<Fate>) {
    fates != [] &&
    var before := fates[..|fates| - 1];
    || MeetsStale(c, before)
    || (Run(c, before).status == Running && fates[|fates| - 1] == LeadingAck && HeldAfter(c, before) != Bad)
  }

  lemma {:induction false} HeldIs(c: Setup, fates: seq<Fate>)
    ensures Run(c, fates).status == Running ==> Run(c, fates).held == HeldAfter(c, fates)
  {
    if fates != [] {
      var before := fates[..|fates| - 1];
      HeldIs(c, before);
      RunKeeps(c, before);
      if Run(c, before).status == Running {
        StepHeld(c, Run(c, before), fates[|fates| - 1]);
      }
    }
  }

  lemma StepHeld(c: Setup, s: State, fate: Fate)
    requires s.status == Running && Sound(c, s)
    ensures
      var t := Step(c, s, fate);
      t.status == Running ==>
        match fate
        case Rejected(left) => t.held == left
        case LeadingAck | Delivered => t.held == Bad
        case RequestLost | ReplyLost => t.held == s.held
  {
    HearingKeeps(c, s);
  }

  predicate Genuine(items: seq<Item>) {
    forall i :: 0 <= i < |items| ==> items[i].Reply?
  }

  /** Safety, exactly: all that is taken are the slave's telegrams first, first + 1, .. if and only if no
      leading E5 meets a frame that parses. */
  lemma {:induction false} GenuineExactly(c: Setup, fates: seq<Fate>)
    ensures Genuine(Run(c, fates).taken) <==> !MeetsStale(c, fates)
  {
    if fates != [] {
      var before := fates[..|fates| - 1];
      GenuineExactly(c, before);
      HeldIs(c, before);
      StepGenuine(c, Run(c, before), fates[|fates| - 1]);
    }
  }

  lemma StepGenuine(c: Setup, s: State, fate: Fate)
    ensures Genuine(Step(c, s, fate).taken) <==>
              Genuine(s.taken) && !(s.status == Running && fate == LeadingAck && s.held != Bad)
  {
    var t := Step(c, s, fate);
    if |t.taken| > |s.taken| {
      assert t.taken[..|s.taken|] == s.taken;
      assert t.taken[|s.taken|].Reply? <==> fate != LeadingAck;
      assert forall i :: 0 <= i < |s.taken| ==> t.taken[i] == s.taken[i];
    }
  }

  /** A leading E5 on a frame that does not parse ends the readout with an error, and nothing is taken. */
  lemma UnparsableEnds(c: Setup, fates: seq<Fate>)
    requires Run(c, fates).status == Running && HeldAfter(c, fates) == Bad
    ensures Run(c, fates + [LeadingAck]).status == Broken
    ensures Run(c, fates + [LeadingAck]).taken == Run(c, fates).taken
  {
    HeldIs(c, fates);
    assert (fates + [LeadingAck])[..|fates|] == fates;
  }

  /** Nothing taken is ever given back, and a master that has stopped stays as it is. */
  lemma {:induction false} RunOnlyAdds(c: Setup, fates: seq<Fate>, more: seq<Fate>)
    ensures Run(c, fates).taken <= Run(c, fates + more).taken && Run(c, fates).log <= Run(c, fates + more).log
    ensures Run(c, fates).status != Running ==> Run(c, fates + more) == Run(c, fates)
  {
    if more == [] {
      assert fates + more == fates;
    } else {
      var before := more[..|more| - 1];
      RunOnlyAdds(c, fates, before);
      assert (fates + more)[..|fates + more| - 1] == fates + before;
      StepOnlyAdds(c, Run(c, fates + before), more[|more| - 1]);
    }
  }

  lemma StepOnlyAdds(c: Setup, s: State, fate: Fate)
    ensures s.taken <= Step(c, s, fate).taken && s.log <= Step(c, s, fate).log
  {
  }

  /** A complete readout ends at the first item without more to follow, or at the frame limit. */
  lemma CompleteStopsRight(c: Setup, fates: seq<Fate>)
    requires Run(c, fates).status == Complete
    ensures
      var taken := Run(c, fates).taken;
      var k := |taken|;
      && 0 < k <= FrameLimit(c)
      && (forall i :: 0 <= i < k - 1 ==> ContentOf(c, taken[i]) == More)
      && ContentOf(c, taken[k - 1]) != Bad && (ContentOf(c, taken[k - 1]) == Last || k == FrameLimit(c))
  {
    RunKeeps(c, fates);
    var taken := Run(c, fates).taken;
    ContinuesBelowLimit(c, taken[..|taken| - 1]);
  }

  /** At most max(1, max_frames) (max_data_retry + 1) requests; a request repeats the bit of its
      predecessor exactly if that one brought nothing. */
  lemma RequestsAreBounded(c: Setup, fates: seq<Fate>)
    ensures |Run(c, fates).log| <= FrameLimit(c) * (c.maxRetry + 1)
    ensures BitsFollow(Run(c, fates).log)
  {
    RunKeeps(c, fates);
    LogIsBounded(c, Run(c, fates));
    TimesIsProduct(FrameLimit(c), c.maxRetry + 1);
  }

  /** The first request has the frame count bit set. */
  lemma {:induction false} FirstBitIsSet(c: Setup, fates: seq<Fate>)
    ensures Run(c, fates).log != [] ==> Run(c, fates).log[0].bit
  {
    if fates != [] {
      var before := fates[..|fates| - 1];
      FirstBitIsSet(c, before);
      RunKeeps(c, before);
      StepOnlyAdds(c, Run(c, before), fates[|fates| - 1]);
      if Run(c, before).log == [] {
        FirstOfLog(c, Run(c, before), fates[|fates| - 1]);
      }
    }
  }

  lemma FirstOfLog(c: Setup, s: State, fate: Fate)
    requires s.log == [] && (s.status == Running ==> s.bit)
    ensures Step(c, s, fate).log != [] ==> Step(c, s, fate).log[0].bit
  {
  }

  lemma LogIsBounded(c: Setup, s: State)
    requires Sound(c, s)
    ensures |s.log| <= Times(FrameLimit(c), c.maxRetry + 1)
  {
    var k, n := |s.taken|, c.maxRetry + 1;
    if Continues(c, s.taken) {
      ContinuesBelowLimit(c, s.taken);
      TimesGrows(k + 1, FrameLimit(c), n);
    } else {
      ContinuesBelowLimit(c, s.taken[..k - 1]);
      TimesGrows(k, FrameLimit(c), n);
    }
  }

  lemma {:induction false} TimesGrows(a: nat, b: nat, n: nat)
    requires a <= b
    ensures Times(a, n) <= Times(b, n)
  {
    if a < b {
      TimesGrows(a, b - 1, n);
    }
  }

  lemma {:induction false} LogCountsSteps(c: Setup, fates: seq<Fate>)
    ensures Run(c, fates).status == Running ==> |Run(c, fates).log| == |fates|
  {
    if fates != [] {
      LogCountsSteps(c, fates[..|fates| - 1]);
    }
  }

  /** The readout ends: after that many passes the master is no longer running. */
  lemma ReadoutEnds(c: Setup, fates: seq<Fate>)
    requires |fates| > FrameLimit(c) * (c.maxRetry + 1)
    ensures Run(c, fates).status != Running
  {
    LogCountsSteps(c, fates);
    RequestsAreBounded(c, fates);
  }

  predicate Brings(fate: Fate) {
    fate == Delivered || fate == LeadingAck
  }

  /** How many of the last fates brought nothing. */
  function Misses(fates: seq<Fate>): nat {
    if fates == [] || Brings(fates[|fates| - 1]) then 0 else Misses(fates[..|fates| - 1]) + 1
  }

  /** No more than `n` misses in a row anywhere. */
  predicate Tolerable(fates: seq<Fate>, n: nat) {
    fates == [] || (Misses(fates) <= n && Tolerable(fates[..|fates| - 1], n))
  }

  /** A step of a running master counts its misses in a row and gives up one too many. */
  lemma StepCounts(c: Setup, s: State, fate: Fate)
    requires s.status == Running && Sound(c, s)
    ensures
      var t := Step(c, s, fate);
      && t.retry == (if Brings(fate) then 0 else s.retry + 1)
      && (t.status == GaveUp <==> !Brings(fate) && s.retry + 1 > c.maxRetry)
      && (t.status == Broken ==>
            fate == LeadingAck || (t.taken != [] && ContentOf(c, t.taken[|t.taken| - 1]) == Bad))
  {
    HearingKeeps(c, s);
  }

  lemma {:induction false} RetryCountsMisses(c: Setup, fates: seq<Fate>)
    ensures Run(c, fates).status == Running ==> Run(c, fates).retry == Misses(fates)
  {
    if fates != [] {
      var before := fates[..|fates| - 1];
      RetryCountsMisses(c, before);
      RunKeeps(c, before);
      if Run(c, before).status == Running {
        StepCounts(c, Run(c, before), fates[|fates| - 1]);
      }
    }
  }

  /** It gives up only after too many misses, and breaks only on a telegram that does not parse or on
      a leading E5. */
  lemma {:induction false} NeverGivesUp(c: Setup, fates: seq<Fate>)
    ensures Tolerable(fates, c.maxRetry) ==> Run(c, fates).status != GaveUp
    ensures
      var taken := Run(c, fates).taken;
      Run(c, fates).status == Broken && LeadingAck !in fates ==>
        taken != [] && ContentOf(c, taken[|taken| - 1]) == Bad
  {
    if fates != [] {
      var before := fates[..|fates| - 1];
      NeverGivesUp(c, before);
      RetryCountsMisses(c, before);
      RunKeeps(c, before);
      assert fates == before + [fates[|fates| - 1]];
      if Run(c, before).status == Running {
        StepCounts(c, Run(c, before), fates[|fates| - 1]);
      }
    }
  }

  /** Delivery: if no more than max_data_retry exchanges in a row fail, the master never gives up;
      given enough of them, no leading E5 and telegrams that parse, the readout completes. */
  lemma ToleratesMisses(c: Setup, fates: seq<Fate>)
    requires Tolerable(fates, c.maxRetry)
    ensures Run(c, fates).status != GaveUp
    ensures |fates| > FrameLimit(c) * (c.maxRetry + 1) && LeadingAck !in fates
            && (forall n :: c.first <= n < c.first + FrameLimit(c) ==> c.content(n) != Bad)
            ==> Run(c, fates).status == Complete
  {
    NeverGivesUp(c, fates);
    if |fates| > FrameLimit(c) * (c.maxRetry + 1) && LeadingAck !in fates && Run(c, fates).status == Broken {
      BrokenWithinLimit(c, fates);
    } else if |fates| > FrameLimit(c) * (c.maxRetry + 1) {
      ReadoutEnds(c, fates);
    }
  }

  /** Without a leading E5 only a telegram within the frame limit that does not parse breaks it. */
  lemma BrokenWithinLimit(c: Setup, fates: seq<Fate>)
    requires Run(c, fates).status == Broken && LeadingAck !in fates
    ensures exists n :: c.first <= n < c.first + FrameLimit(c) && c.content(n) == Bad
  {
    NeverGivesUp(c, fates);
    RunKeeps(c, fates);
    NothingStale(c, fates);
    GenuineExactly(c, fates);
    TakenInOrder(c, fates);
    var taken := Run(c, fates).taken;
    var last := taken[|taken| - 1];
    assert ContentOf(c, last) == Bad && last.Reply? && last.number == c.first + |taken| - 1;
    assert !Continues(c, taken);
    ContinuesBelowLimit(c, taken[..|taken| - 1]);
    assert c.content(last.number) == Bad;
  }

  lemma {:induction false} NothingStale(c: Setup, fates: seq<Fate>)
    requires LeadingAck !in fates
    ensures !MeetsStale(c, fates)
  {
    if fates != [] {
      NothingStale(c, fates[..|fates| - 1]);
    }
  }

  lemma MissesAppend(fates: seq<Fate>, fate: Fate)
    ensures Misses(fates + [fate]) == if Brings(fate) then 0 else Misses(fates) + 1
  {
    assert (fates + [fate])[..|fates|] == fates;
  }

  /** And it gives up exactly when one more failure in a row than that is reached. */
  lemma GivesUpExactly(c: Setup, fates: seq<Fate>, fate: Fate)
    requires Run(c, fates).status == Running
    ensures Run(c, fates + [fate]).status == GaveUp <==> Misses(fates + [fate]) > c.maxRetry
  {
    RetryCountsMisses(c, fates);
    RunKeeps(c, fates);
    StepCounts(c, Run(c, fates), fate);
    MissesAppend(fates, fate);
    assert (fates + [fate])[..|fates|] == fates;
  }

  /** Two replies are enough: a rejected one that parses, then one with a leading E5. */
  lemma TwoRepliesFail(c: Setup)
    requires c.maxRetry > 0
    ensures Run(c, [Rejected(Last), LeadingAck]).status == Complete
    ensures Run(c, [Rejected(Last), LeadingAck]).taken == [Stale(Last)]
  {
    assert [Rejected(Last), LeadingAck][..1] == [Rejected(Last)];
    assert [Rejected(Last)][..0] == [];
    assert Run(c, [Rejected(Last)]) == Step(c, Start(c), Rejected(Last));
  }
}
