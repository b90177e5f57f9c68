/** The secondary address search as a function of the devices and the mask: what it reports, how
    many probes it makes, and that it is complete. */
module Scan {
  import opened Bytes
  import opened SecondaryAddress
  import opened Bus

  /** What the search depends on beside the mask. */
  datatype Setup = Setup(devices: set<Device>, retries: nat)

  /** What is done with a found device: nothing, printing, or a caller's function that may stop. */
  datatype Callback = NoCallback | Print | User(stop: (string, string) -> bool)

  /** A device found alone under a mask; `own` tells the level of the call from nested levels. */
  datatype Hit = Hit(device: Device, mask: string, own: bool)

  /** Hits in order, probes made, select telegrams sent, and whether no probe failed. */
  datatype Run = Run(hits: seq<Hit>, probes: nat, selects: nat, ok: bool)

  function Then(a: Run, b: Run): Run {
    Run(a.hits + b.hits, a.probes + b.probes, a.selects + b.selects, b.ok)
  }

  function AddressText(d: Device): string {
    if |d.address| >= 8 then RenderBytes(d.address) else []
  }

  ghost function Verdict(ds: set<Device>, mask: string): Probe {
    if !IsSecondaryAddress(mask) then ProbeError
    else
      var m := Matching(ds, mask);
      if m == {} then Nothing else if |m| == 1 then Single else Collision
  }

  predicate Stops(cb: Callback, d: Device, mask: string) {
    cb.User? && cb.stop(AddressText(d), mask)
  }

  /** The hits of a nested call as the calling level sees them. */
  function Nested(hits: seq<Hit>): (r: seq<Hit>)
    ensures |r| == |hits|
  {
    if hits == [] then [] else [hits[0].(own := false)] + Nested(hits[1..])
  }

  function WithDigit(mask: string, pos: nat, i: nat): (m: string)
    requires pos < |mask| && i < 10
    ensures |m| == |mask|
  {
    mask[pos := (48 + i) as char]
  }

  /** mbus_probe_secondary_range. Nested calls always print, and their result code is dropped. */
  ghost function Search(c: Setup, pos: int, mask: string, cb: Callback): Run
    decreases if pos < 0 then 0 else 16 - pos, 12
  {
    if |mask| != ADDRESS_LENGTH then Run([], 0, 0, false)
    else if pos < 0 || pos >= ADDRESS_LENGTH then Run([], 0, 0, true)
    else if IsWild(mask[pos]) then Sweep(c, pos, mask, cb, 0)
    else if pos < 15 then
      var inner := Search(c, pos + 1, mask, Print);
      Run(Nested(inner.hits), inner.probes, inner.selects, true)
    else OneMask(c, pos, mask)
  }

  /** The loop over the digits i..9 at a wildcard. */
  ghost function Sweep(c: Setup, pos: nat, mask: string, cb: Callback, i: nat): Run
    requires |mask| == ADDRESS_LENGTH && pos < ADDRESS_LENGTH && i <= 10
    decreases 16 - pos, 11 - i
  {
    if i == 10 then Run([], 0, 0, true)
    else
      var one := OneMask(c, pos, WithDigit(mask, pos, i));
      if !one.ok || StopsAt(cb, one) then one
      else Then(one, Sweep(c, pos, mask, cb, i + 1))
  }

  predicate StopsAt(cb: Callback, one: Run) {
    one.hits != [] && one.hits[0].own && Stops(cb, one.hits[0].device, one.hits[0].mask)
  }

  /** One pass of the loop: a probe, and a nested search when it collides. */
  ghost function OneMask(c: Setup, pos: nat, mask: string): Run
    requires |mask| == ADDRESS_LENGTH && pos < ADDRESS_LENGTH
    decreases 16 - pos, 0
  {
    match Verdict(c.devices, mask)
    case ProbeError => Run([], 1, 0, false)
    case Nothing => Run([], 1, c.retries + 1, true)
    case Single => Run([Hit(TheOne(Matching(c.devices, mask)), mask, true)], 1, 1, true)
    case Collision =>
      var inner := Search(c, pos + 1, mask, Print);
      Run(Nested(inner.hits), 1 + inner.probes, 1 + inner.selects, true)
  }

  // ---------------------------------------------------------------- masks

  /** Any valid mask without a wildcard in its ID part in front of `pos`. */
  predicate GoodMask(mask: string, pos: nat) {
    IsSecondaryAddress(mask) && pos <= 8 && forall k :: 0 <= k < pos ==> !IsWild(mask[k])
  }

  /** Wildcards in the ID part from `pos` on. */
  function Wilds(mask: string, pos: nat): nat
    requires |mask| == ADDRESS_LENGTH
    decreases 8 - pos
  {
    if pos >= 8 then 0 else (if IsWild(mask[pos]) then 1 else 0) + Wilds(mask, pos + 1)
  }

  lemma {:induction false} WildsBound(mask: string, pos: nat)
    requires |mask| == ADDRESS_LENGTH && pos <= 8
    ensures Wilds(mask, pos) <= 8 - pos
    ensures Wilds(mask, pos) == 0 <==> forall k :: pos <= k < 8 ==> !IsWild(mask[k])
    decreases 8 - pos
  {
    if pos < 8 {
      WildsBound(mask, pos + 1);
    }
  }

  lemma {:induction false} WildsAbove(mask: string, pos: nat, c: char, at: nat)
    requires |mask| == ADDRESS_LENGTH && at < pos <= 8
    ensures Wilds(mask[at := c], pos) == Wilds(mask, pos)
    decreases 8 - pos
  {
    if pos < 8 {
      WildsAbove(mask, pos + 1, c, at);
    }
  }

  lemma {:induction false} AllHexFrom(s: string)
    requires forall k :: 0 <= k < |s| ==> IsHexDigit(s[k])
    ensures AllHex(s)
  {
    if s != [] {
      assert forall k :: 0 <= k < |s| - 1 ==> s[1..][k] == s[k + 1];
      AllHexFrom(s[1..]);
    }
  }

  /** Filling in a digit changes the nibble of that character only. */
  lemma FilledIn(mask: string, pos: nat, i: nat)
    requires IsSecondaryAddress(mask) && pos < ADDRESS_LENGTH && i < 10
    ensures IsSecondaryAddress(WithDigit(mask, pos, i))
    ensures forall k :: 0 <= k < ADDRESS_LENGTH ==>
              CharNibble(WithDigit(mask, pos, i), k) == if k == pos then i else CharNibble(mask, k)
  {
    var m := WithDigit(mask, pos, i);
    forall k | 0 <= k < ADDRESS_LENGTH ensures IsHexDigit(m[k]) {
      HexAt(mask, k);
    }
    AllHexFrom(m);
    forall k | 0 <= k < ADDRESS_LENGTH ensures CharNibble(m, k) == if k == pos then i else CharNibble(mask, k) {
      HexAt(mask, k);
    }
  }

  lemma GoodMaskWithDigit(mask: string, pos: nat, i: nat)
    requires GoodMask(mask, pos) && pos < 8 && i < 10
    ensures GoodMask(WithDigit(mask, pos, i), pos + 1)
    ensures Wilds(WithDigit(mask, pos, i), pos + 1) == Wilds(mask, pos + 1)
  {
    FilledIn(mask, pos, i);
    WildsAbove(mask, pos + 1, (48 + i) as char, pos);
  }

  function Digit(d: Device, k: nat): nat
    requires k < ADDRESS_LENGTH
  {
    if |d.address| >= 8 then Nibble(d.address, k) else 0
  }

  lemma IdCharacter(mask: string, k: nat)
    requires IsSecondaryAddress(mask) && k < ADDRESS_LENGTH
    ensures CharNibble(mask, k) == 15 <==> IsWild(mask[k])
    ensures Nibble(SelectData(mask), k) == CharNibble(mask, k)
  {
    HexAt(mask, k);
    SelectNibble(mask, k);
    WildCharacter(mask[k]);
    assert CharNibble(mask, k) == if k < 8 then IdNibble(mask[k]) else HexValue(mask[k]);
  }

  lemma WildCharacter(c: char)
    requires IsHexDigit(c)
    ensures IdNibble(c) == 15 <==> IsWild(c)
    ensures HexValue(c) == 15 <==> IsWild(c)
  {
  }

  /** The bytes behind the ID: manufacturer, version and medium. */
  predicate TailMatches(mask: string, d: Device)
    requires IsSecondaryAddress(mask)
  {
    |d.address| >= 8 && forall j :: 4 <= j < 8 ==> ByteMatches(SelectData(mask)[j], d.address[j])
  }

  /** A mask matches by the digits of the ID and by the bytes behind it. */
  lemma MatchesByDigits(ds: set<Device>, mask: string, d: Device)
    requires GoodPopulation(ds) && IsSecondaryAddress(mask) && d in ds
    ensures d in Matching(ds, mask) <==>
              && TailMatches(mask, d)
              && forall k :: 0 <= k < 8 ==> IsWild(mask[k]) || Digit(d, k) == CharNibble(mask, k)
  {
    assert GoodDevice(d);
    forall k | 0 <= k < 8
      ensures DigitMatches(Nibble(SelectData(mask), k), Nibble(d.address, k)) <==>
                IsWild(mask[k]) || Digit(d, k) == CharNibble(mask, k)
    {
      IdCharacter(mask, k);
    }
  }

  /** The matching devices whose digit at `pos` is at least `i`. */
  function From(ds: set<Device>, pos: nat, i: nat): set<Device>
    requires pos < ADDRESS_LENGTH
  {
    set d | d in ds && Digit(d, pos) >= i
  }

  function At(ds: set<Device>, pos: nat, i: nat): set<Device>
    requires pos < ADDRESS_LENGTH
  {
    set d | d in ds && Digit(d, pos) == i
  }

  lemma DigitDecides(ds: set<Device>, mask: string, pos: nat, i: nat, d: Device)
    requires GoodPopulation(ds) && GoodMask(mask, pos) && pos < 8 && IsWild(mask[pos]) && i < 10 && d in ds
    ensures IsSecondaryAddress(WithDigit(mask, pos, i))
    ensures d in Matching(ds, WithDigit(mask, pos, i)) <==> d in Matching(ds, mask) && Digit(d, pos) == i
  {
    var m := WithDigit(mask, pos, i);
    FilledIn(mask, pos, i);
    MatchesByDigits(ds, mask, d);
    MatchesByDigits(ds, m, d);
    assert SelectData(m)[4..] == SelectData(mask)[4..];
    assert forall j :: 4 <= j < 8 ==> SelectData(m)[j] == SelectData(m)[4..][j - 4];
    assert forall j :: 4 <= j < 8 ==> SelectData(mask)[j] == SelectData(mask)[4..][j - 4];
    assert TailMatches(m, d) <==> TailMatches(mask, d);
    assert forall k :: 0 <= k < 8 && k != pos ==> m[k] == mask[k];
    assert !IsWild(m[pos]) && CharNibble(m, pos) == i;
  }

  /** Filling in digit i at a wildcard of the ID keeps exactly the devices with that digit. */
  lemma DigitPartitions(ds: set<Device>, mask: string, pos: nat, i: nat)
    requires GoodPopulation(ds) && GoodMask(mask, pos) && pos < 8 && IsWild(mask[pos]) && i < 10
    ensures IsSecondaryAddress(WithDigit(mask, pos, i))
    ensures Matching(ds, WithDigit(mask, pos, i)) == At(Matching(ds, mask), pos, i)
  {
    FilledIn(mask, pos, i);
    forall d | d in ds
      ensures d in Matching(ds, WithDigit(mask, pos, i)) <==> d in At(Matching(ds, mask), pos, i)
    {
      DigitDecides(ds, mask, pos, i, d);
    }
  }

  lemma IdByte(d: seq<byte>, k: nat)
    requires |d| >= 8 && k < 4
    ensures d[k] == 16 * Nibble(d, 6 - 2 * k) + Nibble(d, 7 - 2 * k)
  {
    assert InOrder(d)[3 - k] == d[k];
  }

  lemma SameDigitsSameId(a: seq<byte>, b: seq<byte>)
    requires |a| >= 8 && |b| >= 8 && forall k :: 0 <= k < 8 ==> Nibble(a, k) == Nibble(b, k)
    ensures a[..4] == b[..4]
  {
    forall k | 0 <= k < 4 ensures a[k] == b[k] {
      IdByte(a, k);
      IdByte(b, k);
    }
  }

  /** Without a wildcard in the ID at most one device matches. */
  lemma NoWildsNoCollision(ds: set<Device>, mask: string)
    requires GoodPopulation(ds) && GoodMask(mask, 8)
    ensures |Matching(ds, mask)| <= 1
  {
    var m := Matching(ds, mask);
    if d, e :| d in m && e in m && d != e {
      MatchesByDigits(ds, mask, d);
      MatchesByDigits(ds, mask, e);
      forall k | 0 <= k < 8 ensures Nibble(d.address, k) == Nibble(e.address, k) {
        assert Digit(d, k) == CharNibble(mask, k) == Digit(e, k);
      }
      SameDigitsSameId(d.address, e.address);
      assert false;
    }
    if m != {} {
      var d :| d in m;
      assert m == {d};
    }
  }

  // ---------------------------------------------------------------- completeness and cost

  function DevicesOf(hits: seq<Hit>): (ds: seq<Device>)
    ensures |ds| == |hits|
  {
    if hits == [] then [] else [hits[0].device] + DevicesOf(hits[1..])
  }

  lemma {:induction false} DevicesOfAppend(a: seq<Hit>, b: seq<Hit>)
    ensures DevicesOf(a + b) == DevicesOf(a) + DevicesOf(b)
  {
    if a == [] {
      assert a + b == b;
    } else {
      assert (a + b)[1..] == a[1..] + b;
      DevicesOfAppend(a[1..], b);
    }
  }

  lemma {:induction false} DevicesOfNested(hits: seq<Hit>)
    ensures DevicesOf(Nested(hits)) == DevicesOf(hits)
  {
    if hits != [] {
      DevicesOfNested(hits[1..]);
    }
  }

  /** Every mask that is reported with a device matches that device and no other. */
  predicate Unambiguous(ds: set<Device>, hits: seq<Hit>) {
    hits != [] ==>
      && IsSecondaryAddress(hits[0].mask) && Matching(ds, hits[0].mask) == {hits[0].device}
      && Unambiguous(ds, hits[1..])
  }

  lemma {:induction false} UnambiguousAppend(ds: set<Device>, a: seq<Hit>, b: seq<Hit>)
    requires Unambiguous(ds, a) && Unambiguous(ds, b)
    ensures Unambiguous(ds, a + b)
  {
    if a == [] {
      assert a + b == b;
    } else {
      assert (a + b)[1..] == a[1..] + b;
      UnambiguousAppend(ds, a[1..], b);
    }
  }

  lemma {:induction false} UnambiguousNested(ds: set<Device>, hits: seq<Hit>)
    requires Unambiguous(ds, hits)
    ensures Unambiguous(ds, Nested(hits))
  {
    if hits != [] {
      UnambiguousNested(ds, hits[1..]);
    }
  }

  /** Exactly once each: the hits are the devices of `ds`, none twice and no other. */
  predicate ExactlyOnce(hits: seq<Hit>, ds: set<Device>) {
    multiset(DevicesOf(hits)) == multiset(ds)
  }

  lemma DisjointUnion(a: set<Device>, b: set<Device>)
    requires a !! b
    ensures multiset(a + b) == multiset(a) + multiset(b) && |a + b| == |a| + |b|
  {
  }

  lemma FromSplits(ds: set<Device>, pos: nat, i: nat)
    requires pos < ADDRESS_LENGTH
    ensures From(ds, pos, i) == At(ds, pos, i) + From(ds, pos, i + 1) && At(ds, pos, i) !! From(ds, pos, i + 1)
  {
  }

  /** Ten probes for each pair of devices and each wildcard behind the first. */
  function Share(wilds: nat, n: nat): nat {
    if wilds <= 1 then 0 else Share(wilds - 1, n) + 10 * (n / 2)
  }

  lemma {:induction false} ShareSum(wilds: nat, a: nat, b: nat)
    ensures Share(wilds, a) + Share(wilds, b) <= Share(wilds, a + b)
  {
    if wilds > 1 {
      ShareSum(wilds - 1, a, b);
    }
  }

  lemma {:induction false} ShareBound(wilds: nat, n: nat)
    requires wilds <= 8
    ensures Share(wilds, n) <= 70 * (n / 2)
  {
    var steps := if wilds > 1 then wilds - 1 else 0;
    ShareUpTo(wilds, n / 2, n, steps);
    ProductSum(n / 2, steps, 7 - steps);
  }

  lemma {:induction false} ShareUpTo(wilds: nat, half: nat, n: nat, steps: nat)
    requires half == n / 2 && steps == if wilds > 1 then wilds - 1 else 0
    ensures Share(wilds, n) == 10 * Product(half, steps)
  {
    if wilds > 1 {
      ShareUpTo(wilds - 1, half, n, steps - 1);
      ProductSum(half, steps - 1, 1);
    }
  }

  /** At most retries + 1 select telegrams for each probe. */
  predicate Frugal(c: Setup, run: Run) {
    run.selects <= Product(c.retries + 1, run.probes)
  }

  function Product(k: nat, n: nat): nat {
    k * n
  }

  lemma ProductSum(k: nat, a: nat, b: nat)
    ensures Product(k, a + b) == Product(k, a) + Product(k, b)
  {
  }

  lemma FrugalThen(c: Setup, a: Run, b: Run)
    requires Frugal(c, a) && Frugal(c, b)
    ensures Frugal(c, Then(a, b))
  {
    ProductSum(c.retries + 1, a.probes, b.probes);
  }

  lemma FrugalNested(c: Setup, inner: Run, hits: seq<Hit>, extra: nat)
    requires Frugal(c, inner) && extra <= 1
    ensures Frugal(c, Run(hits, extra + inner.probes, extra + inner.selects, true))
  {
    ProductSum(c.retries + 1, extra, inner.probes);
  }

  /** What one search, or the rest of one loop, has to deliver for the devices `want`. */
  predicate Delivers(c: Setup, hits: seq<Hit>, want: set<Device>) {
    ExactlyOnce(hits, want) && Unambiguous(c.devices, hits)
  }

  lemma DeliversThen(c: Setup, a: seq<Hit>, b: seq<Hit>, x: set<Device>, y: set<Device>)
    requires Delivers(c, a, x) && Delivers(c, b, y) && x !! y
    ensures Delivers(c, a + b, x + y)
  {
    DevicesOfAppend(a, b);
    UnambiguousAppend(c.devices, a, b);
    DisjointUnion(x, y);
  }

  lemma DeliversNested(c: Setup, inner: seq<Hit>, x: set<Device>)
    requires Delivers(c, inner, x)
    ensures Delivers(c, Nested(inner), x)
  {
    DevicesOfNested(inner);
    UnambiguousNested(c.devices, inner);
  }

  ghost predicate NeverStops(cb: Callback) {
    cb.User? ==> forall a, m :: !cb.stop(a, m)
  }

  /** Completeness, exactly-once and cost of a search whose mask has a wildcard ahead. */
  lemma {:induction false} SearchDelivers(c: Setup, pos: nat, mask: string, cb: Callback)
    requires GoodPopulation(c.devices) && GoodMask(mask, pos) && Wilds(mask, pos) > 0 && NeverStops(cb)
    ensures
      var run, want := Search(c, pos, mask, cb), Matching(c.devices, mask);
      run.ok && Delivers(c, run.hits, want) && Frugal(c, run) && run.probes <= 10 + Share(Wilds(mask, pos), |want|)
    decreases 16 - pos, 12
  {
    var want := Matching(c.devices, mask);
    if IsWild(mask[pos]) {
      SweepDelivers(c, pos, mask, cb, 0);
      FromAll(want, pos);
      SearchIsSweep(c, pos, mask, cb);
    } else {
      SearchDelivers(c, pos + 1, mask, Print);
      PassedOn(c, pos, mask, cb, want);
    }
  }

  lemma FromAll(ds: set<Device>, pos: nat)
    requires pos < ADDRESS_LENGTH
    ensures From(ds, pos, 0) == ds
  {
  }

  lemma SearchIsSweep(c: Setup, pos: nat, mask: string, cb: Callback)
    requires |mask| == ADDRESS_LENGTH && pos < ADDRESS_LENGTH && IsWild(mask[pos])
    ensures Search(c, pos, mask, cb) == Sweep(c, pos, mask, cb, 0)
  {
  }

  /** Where there is no wildcard at `pos`, everything is left to a nested search. */
  lemma PassedOn(c: Setup, pos: nat, mask: string, cb: Callback, want: set<Device>)
    requires |mask| == ADDRESS_LENGTH && pos < 15 && !IsWild(mask[pos])
    ensures
      var run, inner := Search(c, pos, mask, cb), Search(c, pos + 1, mask, Print);
      && run.ok && run.probes == inner.probes
      && (Delivers(c, inner.hits, want) ==> Delivers(c, run.hits, want))
      && (Frugal(c, inner) ==> Frugal(c, run))
  {
    var inner := Search(c, pos + 1, mask, Print);
    if Delivers(c, inner.hits, want) {
      DeliversNested(c, inner.hits, want);
    }
    if Frugal(c, inner) {
      FrugalNested(c, inner, Nested(inner.hits), 0);
    }
  }

  lemma {:induction false} SweepDelivers(c: Setup, pos: nat, mask: string, cb: Callback, i: nat)
    requires GoodPopulation(c.devices) && GoodMask(mask, pos) && pos < 8 && IsWild(mask[pos]) && NeverStops(cb)
    requires i <= 10
    ensures
      var run, rest := Sweep(c, pos, mask, cb, i), From(Matching(c.devices, mask), pos, i);
      && run.ok && Delivers(c, run.hits, rest) && Frugal(c, run)
      && run.probes <= 10 - i + Share(Wilds(mask, pos), |rest|)
    decreases 16 - pos, 11 - i
  {
    var want := Matching(c.devices, mask);
    if i == 10 {
      NoDigitAboveNine(c.devices, mask, pos);
    } else {
      OneMaskDelivers(c, pos, mask, i);
      SweepDelivers(c, pos, mask, cb, i + 1);
      SweepStep(c, pos, mask, cb, i);
      SweepJoins(c, Wilds(mask, pos), OneMask(c, pos, WithDigit(mask, pos, i)), Sweep(c, pos, mask, cb, i + 1),
                 want, pos, i);
    }
  }

  lemma SweepStep(c: Setup, pos: nat, mask: string, cb: Callback, i: nat)
    requires |mask| == ADDRESS_LENGTH && pos < ADDRESS_LENGTH && i < 10 && NeverStops(cb)
    requires OneMask(c, pos, WithDigit(mask, pos, i)).ok
    ensures Sweep(c, pos, mask, cb, i) == Then(OneMask(c, pos, WithDigit(mask, pos, i)), Sweep(c, pos, mask, cb, i + 1))
  {
  }

  lemma SweepJoins(c: Setup, wilds: nat, one: Run, rest: Run, want: set<Device>, pos: nat, i: nat)
    requires pos < ADDRESS_LENGTH && i < 10
    requires Delivers(c, one.hits, At(want, pos, i)) && Delivers(c, rest.hits, From(want, pos, i + 1))
    requires Frugal(c, one) && Frugal(c, rest)
    requires one.probes <= 1 + Share(wilds, |At(want, pos, i)|)
    requires rest.probes <= 9 - i + Share(wilds, |From(want, pos, i + 1)|)
    ensures Delivers(c, Then(one, rest).hits, From(want, pos, i)) && Frugal(c, Then(one, rest))
    ensures Then(one, rest).probes <= 10 - i + Share(wilds, |From(want, pos, i)|)
  {
    FromSplits(want, pos, i);
    DeliversThen(c, one.hits, rest.hits, At(want, pos, i), From(want, pos, i + 1));
    FrugalThen(c, one, rest);
    ProbesAddUp(wilds, At(want, pos, i), From(want, pos, i + 1));
  }

  lemma ProbesAddUp(wilds: nat, x: set<Device>, y: set<Device>)
    requires x !! y
    ensures Share(wilds, |x|) + Share(wilds, |y|) <= Share(wilds, |x + y|)
  {
    DisjointUnion(x, y);
    ShareSum(wilds, |x|, |y|);
  }

  lemma NoDigitAboveNine(ds: set<Device>, mask: string, pos: nat)
    requires GoodPopulation(ds) && IsSecondaryAddress(mask) && pos < 8
    ensures From(Matching(ds, mask), pos, 10) == {}
  {
    forall d | d in Matching(ds, mask) ensures Digit(d, pos) < 10 {
      assert GoodDevice(d);
    }
  }

  lemma {:induction false} OneMaskDelivers(c: Setup, pos: nat, mask: string, i: nat)
    requires GoodPopulation(c.devices) && GoodMask(mask, pos) && pos < 8 && IsWild(mask[pos]) && i < 10
    ensures
      var one, here := OneMask(c, pos, WithDigit(mask, pos, i)), At(Matching(c.devices, mask), pos, i);
      one.ok && Delivers(c, one.hits, here) && Frugal(c, one) && one.probes <= 1 + Share(Wilds(mask, pos), |here|)
    decreases 16 - pos, 1
  {
    DigitPartitions(c.devices, mask, pos, i);
    GoodMaskWithDigit(mask, pos, i);
    MaskDelivers(c, pos, WithDigit(mask, pos, i), Wilds(mask, pos));
  }

  /** A mask with the digit at `pos` filled in, `wilds` counting the wildcard that was there. */
  lemma {:induction false} MaskDelivers(c: Setup, pos: nat, m: string, wilds: nat)
    requires GoodPopulation(c.devices) && pos < 8 && GoodMask(m, pos + 1) && wilds == Wilds(m, pos + 1) + 1
    ensures
      var one, here := OneMask(c, pos, m), Matching(c.devices, m);
      one.ok && Delivers(c, one.hits, here) && Frugal(c, one) && one.probes <= 1 + Share(wilds, |here|)
    decreases 16 - pos, 0
  {
    if |Matching(c.devices, m)| < 2 {
      FewDeliver(c, pos, m);
    } else {
      CollisionHasWilds(c.devices, m, pos + 1);
      SearchDelivers(c, pos + 1, m, Print);
      CollisionDelivers(c, pos, m, wilds);
    }
  }

  lemma CollisionDelivers(c: Setup, pos: nat, m: string, wilds: nat)
    requires IsSecondaryAddress(m) && pos < ADDRESS_LENGTH && |Matching(c.devices, m)| >= 2 && wilds >= 2
    requires
      var inner, here := Search(c, pos + 1, m, Print), Matching(c.devices, m);
      Delivers(c, inner.hits, here) && Frugal(c, inner) && inner.probes <= 10 + Share(wilds - 1, |here|)
    ensures
      var one, here := OneMask(c, pos, m), Matching(c.devices, m);
      one.ok && Delivers(c, one.hits, here) && Frugal(c, one) && one.probes <= 1 + Share(wilds, |here|)
  {
    CollisionRun(c, pos, m);
    ManyDeliver(c, Search(c, pos + 1, m, Print), Matching(c.devices, m), wilds);
  }

  lemma CollisionHasWilds(ds: set<Device>, m: string, pos: nat)
    requires GoodPopulation(ds) && GoodMask(m, pos) && |Matching(ds, m)| >= 2
    ensures Wilds(m, pos) > 0
  {
    WildsBound(m, pos);
    if Wilds(m, pos) == 0 {
      NoWildsNoCollision(ds, m);
    }
  }

  lemma CollisionRun(c: Setup, pos: nat, m: string)
    requires IsSecondaryAddress(m) && pos < ADDRESS_LENGTH && |Matching(c.devices, m)| >= 2
    ensures
      var inner := Search(c, pos + 1, m, Print);
      OneMask(c, pos, m) == Run(Nested(inner.hits), 1 + inner.probes, 1 + inner.selects, true)
  {
  }

  /** A collision hands the devices on to a nested search. */
  lemma ManyDeliver(c: Setup, inner: Run, here: set<Device>, wilds: nat)
    requires Delivers(c, inner.hits, here) && Frugal(c, inner) && |here| >= 2 && wilds >= 2
    requires inner.probes <= 10 + Share(wilds - 1, |here|)
    ensures
      var one := Run(Nested(inner.hits), 1 + inner.probes, 1 + inner.selects, true);
      Delivers(c, one.hits, here) && Frugal(c, one) && one.probes <= 1 + Share(wilds, |here|)
  {
    DeliversNested(c, inner.hits, here);
    FrugalNested(c, inner, Nested(inner.hits), 1);
  }

  /** A mask that matches at most one device. */
  lemma FewDeliver(c: Setup, pos: nat, m: string)
    requires IsSecondaryAddress(m) && pos < ADDRESS_LENGTH && |Matching(c.devices, m)| < 2
    ensures
      var one := OneMask(c, pos, m);
      one.ok && one.probes == 1 && Delivers(c, one.hits, Matching(c.devices, m)) && Frugal(c, one)
  {
    var here := Matching(c.devices, m);
    var one := OneMask(c, pos, m);
    if |here| == 1 {
      assert one.hits == [Hit(TheOne(here), m, true)];
      assert one.hits[1..] == [];
      assert DevicesOf(one.hits) == [TheOne(here)];
    }
  }

  lemma WithinBounds(c: Setup, run: Run, wilds: nat, n: nat)
    requires Frugal(c, run) && wilds <= 8 && run.probes <= 10 + Share(wilds, n)
    ensures run.probes <= 10 + 70 * (n / 2) && run.selects <= (c.retries + 1) * run.probes
  {
    ShareBound(wilds, n);
  }

  /** A search of a mask with at least one wildcard in its ID part, none of them in front of `pos`, and
      any manufacturer, version and medium behind it: it reports every matching device exactly once and no other, each
      under a mask that matches no other device; it makes at most 10 + 70 (n / 2) probes for n
      matching devices and sends at most retries + 1 select telegrams for each. From position 0 that
      is every mask with a wildcard in its ID part. */
  lemma SearchIsComplete(c: Setup, pos: nat, mask: string, cb: Callback)
    requires GoodPopulation(c.devices) && GoodMask(mask, pos) && Wilds(mask, pos) > 0 && NeverStops(cb)
    ensures
      var run, want := Search(c, pos, mask, cb), Matching(c.devices, mask);
      && run.ok && ExactlyOnce(run.hits, want) && Unambiguous(c.devices, run.hits)
      && run.probes <= 10 + 70 * (|want| / 2)
      && run.selects <= (c.retries + 1) * run.probes
  {
    SearchDelivers(c, pos, mask, cb);
    WildsBound(mask, pos);
    WithinBounds(c, Search(c, pos, mask, cb), Wilds(mask, pos), |Matching(c.devices, mask)|);
  }
}
