/** mbus_scan_2nd_address_range from end to end: which addresses come out, in text, and at what cost. */
module ScanRange {
  import opened SecondaryAddress
  import opened Bus
  import opened Scan
  import opened ScanMasks
  import opened Scanner

  /** The addresses of the devices as the search reports them. */
  function Addresses(ds: set<Device>): set<string> {
    set d | d in ds :: AddressText(d)
  }

  lemma HexCharsDiffer(a: nat, b: nat)
    requires a < 16 && b < 16 && HexChar(a) == HexChar(b)
    ensures a == b
  {
  }

  /** No two devices of a good population have the same address text. */
  lemma TextIdentifiesDevice(ds: set<Device>, d: Device, e: Device)
    requires GoodPopulation(ds) && d in ds && e in ds && AddressText(d) == AddressText(e)
    ensures d == e
  {
    assert GoodDevice(d) && GoodDevice(e);
    forall k | 0 <= k < 8 ensures Nibble(d.address, k) == Nibble(e.address, k) {
      RenderedAt(d.address, k);
      RenderedAt(e.address, k);
      HexCharsDiffer(Nibble(d.address, k), Nibble(e.address, k));
    }
    SameDigitsSameId(d.address, e.address);
  }

  lemma TakeOne(hits: seq<Hit>, want: set<Device>)
    requires hits != [] && ExactlyOnce(hits, want)
    ensures hits[0].device in want && ExactlyOnce(hits[1..], want - {hits[0].device})
  {
    var d := hits[0].device;
    assert multiset(DevicesOf(hits)) == multiset{d} + multiset(DevicesOf(hits[1..]));
    assert d in multiset(want);
    assert multiset(want - {d}) == multiset(want) - multiset{d};
  }

  /** Devices reported exactly once are addresses reported exactly once. */
  lemma {:induction false} TextsExactlyOnce(ds: set<Device>, hits: seq<Hit>, want: set<Device>)
    requires GoodPopulation(ds) && want <= ds && ExactlyOnce(hits, want)
    ensures multiset(Texts(hits)) == multiset(Addresses(want))
  {
    if hits == [] {
      assert multiset(want) == multiset{};
      assert forall d :: d in want ==> d in multiset(want);
      assert Addresses(want) == {};
    } else {
      var d := hits[0].device;
      TakeOne(hits, want);
      TextsExactlyOnce(ds, hits[1..], want - {d});
      AddressApart(ds, want, d);
      assert multiset(Texts(hits)) == multiset{AddressText(d)} + multiset(Texts(hits[1..]));
    }
  }

  lemma AddressApart(ds: set<Device>, want: set<Device>, d: Device)
    requires GoodPopulation(ds) && want <= ds && d in want
    ensures multiset(Addresses(want)) == multiset{AddressText(d)} + multiset(Addresses(want - {d}))
  {
    var rest := Addresses(want - {d});
    if AddressText(d) in rest {
      var e :| e in want - {d} && AddressText(e) == AddressText(d);
      TextIdentifiesDevice(ds, d, e);
      assert false;
    }
    assert Addresses(want) == {AddressText(d)} + rest by {
      assert want == {d} + (want - {d});
    }
  }

  function AddressesOf(reports: seq<Report>): seq<string> {
    if reports == [] then [] else [reports[0].0] + AddressesOf(reports[1..])
  }

  lemma {:induction false} PrintedAddresses(hits: seq<Hit>)
    ensures AddressesOf(PrintedOf(hits, Print)) == Texts(hits)
  {
    if hits != [] {
      PrintedAddresses(hits[1..]);
      assert PrintedOf(hits, Print)[1..] == PrintedOf(hits[1..], Print);
    }
  }

  ghost predicate AllGood(ds: set<Device>, mask: string, pos: nat, reports: seq<Report>) {
    forall i :: 0 <= i < |reports| ==> GoodReport(ds, mask, pos, reports[i])
  }

  /** Nothing is reported but the address and mask of a hit. */
  lemma {:induction false} ReportsAreHits(hits: seq<Hit>, cb: Callback, good: Report -> bool)
    requires forall i :: 0 <= i < |hits| ==> good((AddressText(hits[i].device), hits[i].mask))
    ensures forall i :: 0 <= i < |PrintedOf(hits, cb)| ==> good(PrintedOf(hits, cb)[i])
    ensures forall i :: 0 <= i < |CalledOf(hits, cb)| ==> good(CalledOf(hits, cb)[i])
  {
    if hits != [] {
      assert forall i :: 0 <= i < |hits| - 1 ==> hits[1..][i] == hits[i + 1];
      ReportsAreHits(hits[1..], cb, good);
    }
  }

  /** What is printed and what the caller's function is called with: addresses of matching devices, each with
      the mask narrowed down to the first wildcard at which the device is alone. */
  lemma ReportsAreGood(ds: set<Device>, mask: string, pos: nat, hits: seq<Hit>, cb: Callback)
    requires GoodPopulation(ds) && AllFound(ds, mask, pos, hits)
    ensures AllGood(ds, mask, pos, PrintedOf(hits, cb)) && AllGood(ds, mask, pos, CalledOf(hits, cb))
  {
    var good := (r: Report) => GoodReport(ds, mask, pos, r);
    forall i | 0 <= i < |hits| ensures good((AddressText(hits[i].device), hits[i].mask)) {
      assert FoundUnder(ds, mask, pos, hits[i]);
      FoundIsReported(ds, mask, pos, hits[i]);
    }
    ReportsAreHits(hits, cb, good);
  }

  /** Hit by hit: a caller's function is called for an own hit, and a hit of a nested level is printed. */
  lemma CalledOrPrinted(hits: seq<Hit>, h: Hit, stop: (string, string) -> bool)
    ensures CalledOf([], User(stop)) == [] && PrintedOf([], User(stop)) == []
    ensures CalledOf(hits + [h], User(stop)) ==
            CalledOf(hits, User(stop)) + if h.own then [(AddressText(h.device), h.mask)] else []
    ensures PrintedOf(hits + [h], User(stop)) ==
            PrintedOf(hits, User(stop)) + if h.own then [] else [(AddressText(h.device), h.mask)]
  {
    CalledAppend(hits, [h], User(stop));
    PrintedAppend(hits, [h], User(stop));
    ReportsOne(h, User(stop));
  }

  /** Every report of a search, to the printer or to a caller's function, whether or not it stops. */
  lemma SearchReports(handle: Handle, c: Setup, pos: nat, mask: string, cb: Callback, t: Tally)
    requires GoodPopulation(c.devices) && GoodMask(mask, pos) && Wilds(mask, pos) > 0
    requires AllGood(c.devices, mask, pos, t.printed) && AllGood(c.devices, mask, pos, t.called)
    ensures
      var u := handle.After(t, Search(c, pos, mask, cb), cb);
      AllGood(c.devices, mask, pos, u.printed) && AllGood(c.devices, mask, pos, u.called)
  {
    HitsAreFound(c, pos, mask, cb);
    ReportsAreGood(c.devices, mask, pos, Search(c, pos, mask, cb).hits, cb);
  }

  /** What a scan of a mask leaves behind: the address of each matching device exactly once with the
      found event, or printed if there is none, and no other address; what is printed with an address is the
      mask narrowed down to the first wildcard at which the device is alone; at most 10 + 70 (n / 2) probes
      for n matching devices, with at most max_search_retry + 1 select telegrams each. */
  ghost predicate Scanned(c: Setup, hasFoundEvent: bool, pos: nat, mask: string, t: Tally, selectsBefore: nat)
    requires IsSecondaryAddress(mask)
  {
    var want := Matching(c.devices, mask);
    && AllGood(c.devices, mask, pos, t.printed)
    && multiset(if hasFoundEvent then t.found else AddressesOf(t.printed)) == multiset(Addresses(want))
    && (if hasFoundEvent then t.printed == [] else t.found == []) && t.called == []
    && t.probes <= 10 + 70 * (|want| / 2)
    && t.selects <= selectsBefore + (c.retries + 1) * t.probes
  }

  lemma ScanDelivers(handle: Handle, c: Setup, pos: nat, mask: string, t: Tally)
    requires GoodPopulation(c.devices) && GoodMask(mask, pos) && Wilds(mask, pos) > 0
    requires t.found == [] && t.printed == [] && t.called == [] && t.probes == 0
    ensures Search(c, pos, mask, Print).ok
    ensures Scanned(c, handle.hasFoundEvent, pos, mask, handle.After(t, Search(c, pos, mask, Print), Print), t.selects)
  {
    var run := Search(c, pos, mask, Print);
    SearchIsComplete(c, pos, mask, Print);
    SearchReports(handle, c, pos, mask, Print, t);
    FirstRun(handle, t, run);
    RunIsScanned(c, handle.hasFoundEvent, pos, mask, run, handle.After(t, run, Print), t.selects);
  }

  lemma RunIsScanned(c: Setup, hasFoundEvent: bool, pos: nat, mask: string, run: Run, u: Tally, selects: nat)
    requires GoodPopulation(c.devices) && IsSecondaryAddress(mask) && ExactlyOnce(run.hits, Matching(c.devices, mask))
    requires run.probes <= 10 + 70 * (|Matching(c.devices, mask)| / 2) && run.selects <= (c.retries + 1) * run.probes
    requires u.found == (if hasFoundEvent then Texts(run.hits) else [])
    requires u.printed == (if hasFoundEvent then [] else PrintedOf(run.hits, Print))
    requires u.called == [] && u.probes == run.probes && u.selects == selects + run.selects
    requires AllGood(c.devices, mask, pos, u.printed)
    ensures Scanned(c, hasFoundEvent, pos, mask, u, selects)
  {
    TextsExactlyOnce(c.devices, run.hits, Matching(c.devices, mask));
    PrintedAddresses(run.hits);
  }

  lemma FirstRun(handle: Handle, t: Tally, run: Run)
    requires t.found == [] && t.printed == [] && t.called == [] && t.probes == 0
    ensures
      var u, event := handle.After(t, run, Print), handle.hasFoundEvent;
      && u.found == (if event then Texts(run.hits) else [])
      && u.printed == (if event then [] else PrintedOf(run.hits, Print))
      && u.called == [] && u.probes == run.probes && u.selects == t.selects + run.selects
  {
    ReportsNested(run.hits, Print);
    assert forall s: seq<string> :: [] + s == s;
    assert forall s: seq<Report> :: [] + s == s;
  }

  /** mbus_scan_2nd_address_range, for a mask with a wildcard in its ID part, none of them in front
      of `pos`, and any manufacturer, version and medium behind it. */
  method ScanSecondRange(handle: Handle, pos: int, addrMask: array<char>) returns (code: int)
    requires handle.Ready()
    requires handle.found == [] && handle.printed == [] && handle.called == [] && handle.probes == 0
    modifies handle`found, handle`printed, handle`called, handle`probes, handle.bus, handle.bus.port
    ensures handle.Ready()
    ensures addrMask.Length != ADDRESS_LENGTH ==> code == -1
    ensures 0 <= pos && GoodMask(addrMask[..], pos) && Wilds(addrMask[..], pos) > 0 ==>
              && code == 0
              && Scanned(handle.Configuration(), handle.hasFoundEvent, pos, addrMask[..], handle.Tallied(),
                         old(handle.bus.selects))
  {
    ghost var t := handle.Tallied();
    if 0 <= pos && GoodMask(addrMask[..], pos) && Wilds(addrMask[..], pos) > 0 {
      ScanDelivers(handle, handle.Configuration(), pos, addrMask[..], t);
    }
    code := handle.ProbeRange(pos, addrMask, Print);
  }
}
