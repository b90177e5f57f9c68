/** The search as the master carries it out on the bus. */
module Scanner {
  import opened Bytes
  import opened Telegram
  import opened FrameBuffer
  import opened Framing
  import opened SecondaryAddress
  import opened Bus
  import opened Master
  import opened Scan

  type Report = (string, string)

  /** What goes to the found event: every hit. */
  function Texts(hits: seq<Hit>): seq<string> {
    if hits == [] then [] else [AddressText(hits[0].device)] + Texts(hits[1..])
  }

  function ReportOf(h: Hit): Report {
    (AddressText(h.device), h.mask)
  }

  /** What is printed: the hits of nested levels, and the own ones when printing is the callback. */
  function PrintedOf(hits: seq<Hit>, cb: Callback): seq<Report> {
    if hits == [] then []
    else (if hits[0].own && !cb.Print? then [] else [ReportOf(hits[0])]) + PrintedOf(hits[1..], cb)
  }

  /** What the caller's function is called with: the own hits. */
  function CalledOf(hits: seq<Hit>, cb: Callback): seq<Report> {
    if hits == [] then []
    else (if hits[0].own && cb.User? then [ReportOf(hits[0])] else []) + CalledOf(hits[1..], cb)
  }

  lemma {:induction false} TextsAppend(a: seq<Hit>, b: seq<Hit>)
    ensures Texts(a + b) == Texts(a) + Texts(b)
  {
    if a == [] {
      assert a + b == b;
    } else {
      assert (a + b)[1..] == a[1..] + b;
      TextsAppend(a[1..], b);
    }
  }

  lemma {:induction false} PrintedAppend(a: seq<Hit>, b: seq<Hit>, cb: Callback)
    ensures PrintedOf(a + b, cb) == PrintedOf(a, cb) + PrintedOf(b, cb)
  {
    if a == [] {
      assert a + b == b;
    } else {
      assert (a + b)[1..] == a[1..] + b;
      PrintedAppend(a[1..], b, cb);
      var x, y, z := if a[0].own && !cb.Print? then [] else [ReportOf(a[0])], PrintedOf(a[1..], cb), PrintedOf(b, cb);
      assert x + (y + z) == x + y + z;
    }
  }

  lemma {:induction false} CalledAppend(a: seq<Hit>, b: seq<Hit>, cb: Callback)
    ensures CalledOf(a + b, cb) == CalledOf(a, cb) + CalledOf(b, cb)
  {
    if a == [] {
      assert a + b == b;
    } else {
      assert (a + b)[1..] == a[1..] + b;
      CalledAppend(a[1..], b, cb);
      var x, y, z := if a[0].own && cb.User? then [ReportOf(a[0])] else [], CalledOf(a[1..], cb), CalledOf(b, cb);
      assert x + (y + z) == x + y + z;
    }
  }

  lemma {:induction false} ReportsNested(hits: seq<Hit>, cb: Callback)
    ensures Texts(Nested(hits)) == Texts(hits)
    ensures PrintedOf(Nested(hits), cb) == PrintedOf(hits, Print)
    ensures CalledOf(Nested(hits), cb) == [] && CalledOf(hits, Print) == []
  {
    if hits != [] {
      ReportsNested(hits[1..], cb);
    }
  }

  lemma ReportsOne(h: Hit, cb: Callback)
    ensures Texts([h]) == [AddressText(h.device)]
    ensures PrintedOf([h], cb) == (if h.own && !cb.Print? then [] else [ReportOf(h)])
    ensures CalledOf([h], cb) == (if h.own && cb.User? then [ReportOf(h)] else [])
  {
    assert [h][1..] == [];
  }

  /** Everything a search leaves behind in the handle, and the select telegrams it cost. */
  datatype Tally = Tally(found: seq<string>, printed: seq<Report>, called: seq<Report>, probes: nat, selects: nat)

  lemma Associate<T>(a: seq<T>, b: seq<T>, c: seq<T>)
    ensures a + b + c == a + (b + c)
  {
  }

  /** The handle with the logs of what it reports. */
  class Handle {
    const bus: Bus
    const maxSearchRetry: nat
    const hasFoundEvent: bool
    var found: seq<string>
    var printed: seq<Report>
    var called: seq<Report>
    /** How many probes were made. */
    ghost var probes: nat

    constructor (bus: Bus, maxSearchRetry: nat, hasFoundEvent: bool)
      ensures this.bus == bus && this.maxSearchRetry == maxSearchRetry && this.hasFoundEvent == hasFoundEvent
      ensures found == [] && printed == [] && called == [] && probes == 0
    {
      this.bus, this.maxSearchRetry, this.hasFoundEvent := bus, maxSearchRetry, hasFoundEvent;
      found, printed, called, probes := [], [], [], 0;
    }

    /** An ideal bus with a drained line. */
    ghost predicate Ready()
      reads bus.port
    {
      bus.Valid() && bus.port.incoming == []
    }

    ghost function Configuration(): Setup {
      Setup(bus.devices, maxSearchRetry)
    }

    /** Data request to the selected devices, and what comes back: silence, a lone telegram in the
        frame, or anything else, which counts as a collision. */
    method RequestData() returns (verdict: Probe, reply: Frame)
      requires Ready()
      modifies bus, bus.port
      ensures Ready() && bus.selects == old(bus.selects) && fresh(reply) && fresh(reply.data) && reply.Valid()
      ensures
        var s := OnLine(old(bus.selected), SendData, bus.noise(old(bus.sent)));
        && (verdict == Nothing <==> s == [])
        && (verdict == Single <==> Outcome(s) == RecvOk && End(s) == |s|)
        && (verdict == Single ==> reply.View() == Parse(Blank, s).fields)
        && verdict != ProbeError
    {
      var code := SendRequest(bus);
      ghost var s := bus.port.incoming;
      assert s == OnLine(old(bus.selected), SendData, bus.noise(old(bus.sent)));
      reply := new Frame(AnyKind);
      var result, more := ReceiveAndPurge(bus.port, reply);
      assert End(s) == |s| ==> s[..End(s)] == s;
      verdict := if result == RecvTimeout then Nothing else if result == RecvInvalid || more then Collision else Single;
    }

    /** The second half of mbus_probe_secondary_address: the address of the selected device. */
    method FetchAddress(ghost d: Device) returns (verdict: Probe, address: string)
      requires Ready()
      modifies this`found, bus, bus.port
      ensures Ready() && bus.selects == old(bus.selects)
      ensures found == old(found) + if verdict == Single && hasFoundEvent then [address] else []
      ensures
        var s := OnLine(old(bus.selected), SendData, bus.noise(old(bus.sent)));
        && (s == [] ==> verdict == Nothing)
        && (s != [] ==> (verdict == Collision <==> Outcome(s) != RecvOk || End(s) != |s|))
        && (GoodDevice(d) && s == d.telegram ==> verdict == Single && address == AddressText(d))
    {
      address := "";
      var reply;
      verdict, reply := RequestData();
      if GoodDevice(d) {
        ReplyArrives(d, reply.data[..]);
      }
      if verdict == Single {
        verdict := Nothing;
        if reply.kind == Long {
          var text := GetSecondaryAddress(reply);
          if text != None {
            verdict, address := Single, text.value;
            if hasFoundEvent {
              found := found + [address];
            }
          }
        }
      }
    }

    /** A reply telegram on the line is taken whole, and gives the device's address. */
    lemma ReplyArrives(d: Device, mem: seq<byte>)
      requires GoodDevice(d)
      ensures Outcome(d.telegram) == RecvOk && End(d.telegram) == |d.telegram| && Payload(d).kind == Long
      ensures |Payload(d).data| + 2 <= |mem| && mem[..|Payload(d).data|] == Payload(d).data ==>
                AddressOf(Payload(d).control, Payload(d).controlInformation, mem, |Payload(d).data|)
                == Some(AddressText(d))
    {
      EndOfTelegram(d.telegram, d.telegram);
      if |Payload(d).data| + 2 <= |mem| && mem[..|Payload(d).data|] == Payload(d).data {
        DeviceAddress(d, mem);
      }
    }

    lemma IdealVerdict(mask: string, n: nat)
      requires bus.Valid()
      ensures IsSecondaryAddress(mask) ==>
                var s := [] + OnLine(Matching(bus.devices, mask), Acknowledge, bus.ackNoise(n));
                && LooksLike(Classify(s), Verdict(bus.devices, mask))
                && (Verdict(bus.devices, mask) == Nothing ==> s[End(s)..] == [])
      ensures !IsSecondaryAddress(mask) ==> Verdict(bus.devices, mask) == ProbeError
    {
      if IsSecondaryAddress(mask) {
        var s := OnLine(Matching(bus.devices, mask), Acknowledge, bus.ackNoise(n));
        assert [] + s == s;
        IdealSelect(bus, mask, n);
      }
    }

    /** Several devices may look like one to a select. */
    predicate LooksLike(seen: Probe, verdict: Probe) {
      seen == verdict || (seen == Single && verdict == Collision)
    }

    /** One select on the ideal bus. */
    method SelectIdeal(mask: string) returns (verdict: Probe)
      requires Ready()
      modifies bus, bus.port
      ensures Ready() && LooksLike(verdict, Verdict(bus.devices, mask))
      ensures verdict != ProbeError ==> bus.selected == Matching(bus.devices, mask)
      ensures bus.selects == old(bus.selects) + if verdict == ProbeError then 0 else 1
    {
      IdealVerdict(mask, bus.sent);
      verdict := SelectSecondary(bus, mask);
    }

    /** The data request that tells one selected device from several. */
    method FetchSelected(ghost mask: string) returns (verdict: Probe, address: string)
      requires Ready() && IsSecondaryAddress(mask)
      requires bus.selected == Matching(bus.devices, mask) && bus.selected != {}
      modifies this`found, bus, bus.port
      ensures Ready() && bus.selects == old(bus.selects) && verdict == Verdict(bus.devices, mask)
      ensures verdict == Single ==> address == AddressText(TheOne(Matching(bus.devices, mask)))
      ensures found == old(found) + if verdict == Single && hasFoundEvent then [address] else []
    {
      ghost var d :| d in bus.selected;
      assert d in bus.devices && GoodDevice(d);
      assert Collides(bus.noise(bus.sent));
      verdict, address := FetchAddress(d);
    }

    /** mbus_probe_secondary_address. */
    method ProbeSecondary(mask: string) returns (verdict: Probe, address: string)
      requires Ready()
      modifies this`found, this`probes, bus, bus.port
      ensures Ready() && probes == old(probes) + 1
      ensures verdict == Verdict(bus.devices, mask)
      ensures verdict == Single ==> address == AddressText(TheOne(Matching(bus.devices, mask)))
      ensures found == old(found) + if verdict == Single && hasFoundEvent then [address] else []
      ensures bus.selects == old(bus.selects) + SelectsOf(verdict)
    {
      probes := probes + 1;
      address, verdict := "", ProbeError;
      var i := 0;
      while i <= maxSearchRetry
        invariant 0 <= i <= maxSearchRetry + 1 && Ready() && found == old(found)
        invariant i > 0 ==> verdict == Nothing == Verdict(bus.devices, mask)
        invariant bus.selects == old(bus.selects) + i
        modifies this`found, bus, bus.port
      {
        verdict := SelectIdeal(mask);
        if verdict == Single {
          verdict, address := FetchSelected(mask);
          return;
        } else if verdict == ProbeError || verdict == Collision {
          return;
        }
        i := i + 1;
      }
    }

    /** Select telegrams of one probe: only a silent line is asked again. */
    function SelectsOf(verdict: Probe): nat {
      match verdict
      case ProbeError => 0
      case Nothing => maxSearchRetry + 1
      case _ => 1
    }

    /** With a found event no callback is called, so none can stop the search. */
    function Effective(cb: Callback): Callback {
      if hasFoundEvent && cb.User? then Print else cb
    }

    function FoundBy(hits: seq<Hit>): seq<string> {
      if hasFoundEvent then Texts(hits) else []
    }

    function PrintedBy(hits: seq<Hit>, cb: Callback): seq<Report> {
      if hasFoundEvent then [] else PrintedOf(hits, cb)
    }

    function CalledBy(hits: seq<Hit>, cb: Callback): seq<Report> {
      if hasFoundEvent then [] else CalledOf(hits, cb)
    }

    lemma NestedReports(hits: seq<Hit>, cb: Callback)
      ensures FoundBy(Nested(hits)) == FoundBy(hits)
      ensures PrintedBy(Nested(hits), cb) == PrintedBy(hits, Print)
      ensures CalledBy(Nested(hits), cb) == CalledBy(hits, Print) == []
    {
      ReportsNested(hits, cb);
    }

    /** Logs and counters as one value. */
    ghost function Tallied(): Tally
      reads this, bus
    {
      Tally(found, printed, called, probes, bus.selects)
    }

    /** Logs and counters after a run. */
    ghost function After(t: Tally, run: Run, cb: Callback): Tally {
      Tally(t.found + FoundBy(run.hits), t.printed + PrintedBy(run.hits, cb), t.called + CalledBy(run.hits, cb),
            t.probes + run.probes, t.selects + run.selects)
    }

    lemma AfterThen(t: Tally, a: Run, b: Run, cb: Callback)
      ensures After(After(t, a, cb), b, cb) == After(t, Then(a, b), cb)
    {
      if hasFoundEvent {
        TextsAppend(a.hits, b.hits);
      } else {
        PrintedAppend(a.hits, b.hits, cb);
        CalledAppend(a.hits, b.hits, cb);
      }
      Associate(t.found, FoundBy(a.hits), FoundBy(b.hits));
      Associate(t.printed, PrintedBy(a.hits, cb), PrintedBy(b.hits, cb));
      Associate(t.called, CalledBy(a.hits, cb), CalledBy(b.hits, cb));
    }

    lemma AfterNested(t: Tally, inner: Run, extra: nat, cb: Callback)
      ensures After(t, Run(Nested(inner.hits), extra + inner.probes, extra + inner.selects, true), cb) ==
              After(t, Run(inner.hits, extra + inner.probes, extra + inner.selects, true), Print)
    {
      NestedReports(inner.hits, cb);
    }

    lemma AfterNothing(t: Tally, cb: Callback)
      ensures After(t, Run([], 0, 0, true), cb) == t
    {
      assert t.found + [] == t.found && t.printed + [] == t.printed && t.called + [] == t.called;
    }

    /** The probe in terms of the tally. */
    method ProbeOnce(mask: string) returns (verdict: Probe, address: string)
      requires Ready()
      modifies this`found, this`probes, bus, bus.port
      ensures Ready() && verdict == Verdict(bus.devices, mask)
      ensures verdict == Single ==> address == AddressText(TheOne(Matching(bus.devices, mask)))
      ensures
        var t := old(Tallied());
        Tallied() == t.(found := if verdict == Single && hasFoundEvent then t.found + [address] else t.found,
                        probes := t.probes + 1, selects := t.selects + SelectsOf(verdict))
    {
      verdict, address := ProbeSecondary(mask);
      assert old(found) + [] == old(found);
    }

    /** A device that is alone under the mask: printed, handed to the caller, or left to the event. */
    method ReportSingle(address: string, mask: string, cb: Callback, ghost h: Hit) returns (stop: bool)
      requires address == AddressText(h.device) && mask == h.mask && h.own
      modifies this`printed, this`called
      ensures stop == Stops(Effective(cb), h.device, h.mask)
      ensures
        var t := old(Tallied());
        Tallied() == t.(printed := t.printed + PrintedBy([h], cb), called := t.called + CalledBy([h], cb))
    {
      ReportsOne(h, cb);
      stop := false;
      if !hasFoundEvent {
        match cb {
          case NoCallback =>
          case Print =>
            printed := printed + [(address, mask)];
          case User(f) =>
            called := called + [(address, mask)];
            stop := f(address, mask);
        }
      }
    }

    /** After a single answer: the device is reported. */
    method ReportFound(address: string, mask: string, ghost pos: nat, cb: Callback, ghost t: Tally) returns (stop: bool)
      requires |mask| == ADDRESS_LENGTH && pos < ADDRESS_LENGTH && Verdict(bus.devices, mask) == Single
      requires address == AddressText(TheOne(Matching(bus.devices, mask)))
      requires Tallied() == t.(found := if hasFoundEvent then t.found + [address] else t.found,
                               probes := t.probes + 1, selects := t.selects + 1)
      modifies this`printed, this`called
      ensures
        var one := OneMask(Configuration(), pos, mask);
        one.ok && stop == StopsAt(Effective(cb), one) && Tallied() == After(t, one, cb)
    {
      SingleRun(Configuration(), pos, mask, cb, t);
      stop := ReportSingle(address, mask, cb, Hit(TheOne(Matching(bus.devices, mask)), mask, true));
    }

    /** After a collision: the mask is restricted further, and the result code is dropped. */
    method SearchBelow(mask: array<char>, pos: nat, cb: Callback, ghost t: Tally)
      requires Ready() && mask.Length == ADDRESS_LENGTH && pos < ADDRESS_LENGTH
      requires Verdict(bus.devices, mask[..]) == Collision
      requires Tallied() == t.(probes := t.probes + 1, selects := t.selects + 1)
      modifies this`found, this`printed, this`called, this`probes, bus, bus.port
      ensures Ready()
      ensures
        var one := OneMask(Configuration(), pos, mask[..]);
        one.ok && !StopsAt(Effective(cb), one) && Tallied() == After(t, one, cb)
      decreases 16 - pos, 0
    {
      CollisionRun(Configuration(), pos, mask[..]);
      CollisionTally(t, Search(Configuration(), pos + 1, mask[..], Print), cb);
      var code := ProbeRange(pos + 1, mask, Print);
    }

    /** One pass of the loop of mbus_probe_secondary_range: probe a mask; report a single device, or
        search on below a collision. */
    method TryMask(mask: array<char>, pos: nat, cb: Callback) returns (ok: bool, stop: bool)
      requires Ready() && mask.Length == ADDRESS_LENGTH && pos < ADDRESS_LENGTH
      modifies this`found, this`printed, this`called, this`probes, bus, bus.port
      ensures Ready()
      ensures ok == OneMask(Configuration(), pos, mask[..]).ok
      ensures stop == StopsAt(Effective(cb), OneMask(Configuration(), pos, mask[..]))
      ensures Tallied() == After(old(Tallied()), OneMask(Configuration(), pos, mask[..]), cb)
      decreases 16 - pos, 1
    {
      ghost var t, text := Tallied(), mask[..];
      ok, stop := true, false;
      var verdict, address := ProbeOnce(mask[..]);
      if verdict == Single {
        stop := ReportFound(address, mask[..], pos, cb, t);
      } else if verdict == Collision {
        SearchBelow(mask, pos, cb, t);
      } else {
        ok := verdict == Nothing;
        SilentRun(Configuration(), pos, text, cb, t);
      }
    }

    lemma SingleRun(c: Setup, pos: nat, text: string, cb: Callback, t: Tally)
      requires |text| == ADDRESS_LENGTH && pos < ADDRESS_LENGTH && Verdict(c.devices, text) == Single
      ensures
        var h := Hit(TheOne(Matching(c.devices, text)), text, true);
        var one := OneMask(c, pos, text);
        && one == Run([h], 1, 1, true) && (StopsAt(Effective(cb), one) <==> Stops(Effective(cb), h.device, text))
        && After(t, one, cb) == Tally(if hasFoundEvent then t.found + [AddressText(h.device)] else t.found,
                                      t.printed + PrintedBy([h], cb), t.called + CalledBy([h], cb),
                                      t.probes + 1, t.selects + 1)
    {
      ReportsOne(Hit(TheOne(Matching(c.devices, text)), text, true), cb);
      assert t.found + [] == t.found;
    }

    lemma SilentRun(c: Setup, pos: nat, text: string, cb: Callback, t: Tally)
      requires |text| == ADDRESS_LENGTH && pos < ADDRESS_LENGTH && Verdict(c.devices, text) in {Nothing, ProbeError}
      ensures
        var one := OneMask(c, pos, text);
        && one.ok == (Verdict(c.devices, text) == Nothing) && !StopsAt(Effective(cb), one)
        && After(t, one, cb) == t.(probes := t.probes + 1,
                                   selects := t.selects + if one.ok then c.retries + 1 else 0)
    {
      AfterNothing(t, cb);
    }

    lemma CollisionTally(t: Tally, inner: Run, cb: Callback)
      ensures
        var u := t.(probes := t.probes + 1, selects := t.selects + 1);
        var one := Run(Nested(inner.hits), 1 + inner.probes, 1 + inner.selects, true);
        After(u, inner, Print) == After(t, one, cb) && !StopsAt(Effective(cb), one)
    {
      AfterNested(t, inner, 1, cb);
    }

    /** mbus_probe_secondary_range, on its own copy of the mask: logs, counters and result are those
        of the specified search. */
    method ProbeRange(pos: int, addrMask: array<char>, cb: Callback) returns (code: int)
      requires Ready()
      modifies this`found, this`printed, this`called, this`probes, bus, bus.port
      ensures Ready()
      ensures code == if Search(Configuration(), pos, addrMask[..], Effective(cb)).ok then 0 else -1
      ensures Tallied() == After(old(Tallied()), Search(Configuration(), pos, addrMask[..], Effective(cb)), cb)
      decreases if 0 <= pos < 16 then 16 - pos else 0, 12
    {
      ghost var t, c := Tallied(), Configuration();
      AfterNothing(t, cb);
      if addrMask.Length != ADDRESS_LENGTH {
        return -1;
      }
      if pos < 0 || pos >= ADDRESS_LENGTH {
        return 0;
      }
      var mask := new char[ADDRESS_LENGTH](k requires 0 <= k < ADDRESS_LENGTH reads addrMask => addrMask[k]);
      assert mask[..] == addrMask[..];
      if IsWild(mask[pos]) {
        code := ProbeDigits(pos, mask, cb);
      } else if pos < 15 {
        var dropped := ProbeRange(pos + 1, mask, Print);
        AfterNested(t, Search(c, pos + 1, mask[..], Print), 0, cb);
        code := 0;
      } else {
        var ok, stop := TryMask(mask, pos, cb);
        code := if ok then 0 else -1;
      }
    }

    /** One digit of the loop: what is done and what is ahead still make the whole. */
    lemma DigitStep(c: Setup, pos: nat, text: string, cb: Callback, i: nat, done: Run, whole: Run)
      requires |text| == ADDRESS_LENGTH && pos < ADDRESS_LENGTH && i < 10
      requires Then(done, Sweep(c, pos, text, cb, i)) == whole
      ensures
        var one := OneMask(c, pos, WithDigit(text, pos, i));
        && Then(done, one).ok == one.ok
        && if one.ok && !StopsAt(cb, one) then Then(Then(done, one), Sweep(c, pos, text, cb, i + 1)) == whole
           else Then(done, one) == whole
    {
      ThenThen(done, OneMask(c, pos, WithDigit(text, pos, i)), Sweep(c, pos, text, cb, i + 1));
    }

    lemma ThenThen(a: Run, b: Run, r: Run)
      ensures Then(Then(a, b), r) == Then(a, Then(b, r))
    {
      Associate(a.hits, b.hits, r.hits);
    }

    lemma ThenNothing(a: Run)
      ensures Then(Run([], 0, 0, true), a) == a
      ensures a.ok ==> Then(a, Run([], 0, 0, true)) == a
    {
      assert [] + a.hits == a.hits == a.hits + [];
    }

    /** The digit under the loop counter. */
    method SetDigit(mask: array<char>, pos: nat, i: nat, ghost text: string)
      requires mask.Length == |text| == ADDRESS_LENGTH && pos < ADDRESS_LENGTH && i < 10
      requires mask[..pos] == text[..pos] && mask[pos + 1..] == text[pos + 1..]
      modifies mask
      ensures mask[..] == WithDigit(text, pos, i)
      ensures mask[..pos] == text[..pos] && mask[pos + 1..] == text[pos + 1..]
    {
      mask[pos] := (48 + i) as char;
      assert mask[..] == mask[..pos] + [mask[pos]] + mask[pos + 1..];
    }

    /** The loop over the digits 0 to 9 at a wildcard. */
    method ProbeDigits(pos: nat, mask: array<char>, cb: Callback) returns (code: int)
      requires Ready() && mask.Length == ADDRESS_LENGTH && pos < ADDRESS_LENGTH
      modifies this`found, this`printed, this`called, this`probes, bus, bus.port, mask
      ensures Ready()
      ensures code == if Sweep(Configuration(), pos, old(mask[..]), Effective(cb), 0).ok then 0 else -1
      ensures Tallied() == After(old(Tallied()), Sweep(Configuration(), pos, old(mask[..]), Effective(cb), 0), cb)
      decreases 16 - pos, 11
    {
      ghost var c, text, t, e := Configuration(), mask[..], Tallied(), Effective(cb);
      ghost var whole := Sweep(c, pos, text, e, 0);
      ghost var done := Run([], 0, 0, true);
      var i, ok, stop := 0, true, false;
      ThenNothing(whole);
      AfterNothing(t, cb);
      while i < 10 && ok && !stop
        invariant 0 <= i <= 10 && Ready() && done.ok == ok
        invariant if ok && !stop then Then(done, Sweep(c, pos, text, e, i)) == whole else done == whole
        invariant mask[..pos] == text[..pos] && mask[pos + 1..] == text[pos + 1..]
        invariant Tallied() == After(t, done, cb)
      {
        SetDigit(mask, pos, i, text);
        ghost var one := OneMask(c, pos, WithDigit(text, pos, i));
        ok, stop := TryMask(mask, pos, cb);
        AfterThen(t, done, one, cb);
        DigitStep(c, pos, text, e, i, done, whole);
        done := Then(done, one);
        i := i + 1;
      }
      ThenNothing(done);
      code := if ok then 0 else -1;
    }
  }
}
