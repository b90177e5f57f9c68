/** The masks under which a search finds its devices. */
module ScanMasks {
  import opened SecondaryAddress
  import opened Bus
  import opened Scan

  /** The mask with its wildcards up to character `k` replaced by the device's digits. */
  function Narrowed(mask: string, d: Device, k: int): (m: string)
    requires |mask| == ADDRESS_LENGTH
    ensures |m| == ADDRESS_LENGTH
  {
    seq(ADDRESS_LENGTH, j requires 0 <= j < ADDRESS_LENGTH =>
      if j <= k && IsWild(mask[j]) then (48 + Digit(d, j)) as char else mask[j])
  }

  /** How many devices a string matches, if it is a mask. */
  function Count(ds: set<Device>, m: string): nat {
    if IsSecondaryAddress(m) then |Matching(ds, m)| else 0
  }

  /** `m` is the mask narrowed down to the wildcard `k`, and matches `d` alone; narrowed down to an earlier
      wildcard the mask still matches several devices. */
  ghost predicate FoundAt(ds: set<Device>, mask: string, pos: nat, d: Device, m: string, k: nat) {
    && |mask| == ADDRESS_LENGTH && pos <= k < 8 && IsWild(mask[k]) && m == Narrowed(mask, d, k)
    && IsSecondaryAddress(m) && Matching(ds, m) == {d}
    && forall j :: pos <= j < k && IsWild(mask[j]) ==> Count(ds, Narrowed(mask, d, j)) >= 2
  }

  ghost predicate FoundUnder(ds: set<Device>, mask: string, pos: nat, h: Hit) {
    && IsSecondaryAddress(mask) && h.device in Matching(ds, mask)
    && exists k :: FoundAt(ds, mask, pos, h.device, h.mask, k)
  }

  ghost predicate AllFound(ds: set<Device>, mask: string, pos: nat, hits: seq<Hit>) {
    forall i :: 0 <= i < |hits| ==> FoundUnder(ds, mask, pos, hits[i])
  }

  lemma {:induction false} NestedAt(hits: seq<Hit>, i: nat)
    requires i < |hits|
    ensures Nested(hits)[i] == hits[i].(own := false)
  {
    if i > 0 {
      NestedAt(hits[1..], i - 1);
    }
  }

  lemma NestedFound(ds: set<Device>, mask: string, pos: nat, hits: seq<Hit>)
    requires AllFound(ds, mask, pos, hits)
    ensures AllFound(ds, mask, pos, Nested(hits))
  {
    forall i | 0 <= i < |hits| ensures FoundUnder(ds, mask, pos, Nested(hits)[i]) {
      NestedAt(hits, i);
    }
  }

  // ---------------------------------------------------------------- one level of the search

  /** Narrowing down to the first wildcard fills in one digit. */
  lemma NarrowedOnce(mask: string, pos: nat, d: Device, i: nat)
    requires GoodMask(mask, pos) && pos < 8 && IsWild(mask[pos]) && i < 10 && Digit(d, pos) == i
    ensures Narrowed(mask, d, pos) == WithDigit(mask, pos, i)
  {
  }

  /** Narrowing further is the same with and without that digit filled in. */
  lemma NarrowedFurther(mask: string, pos: nat, d: Device, i: nat, k: nat)
    requires GoodMask(mask, pos) && pos < 8 && IsWild(mask[pos]) && i < 10 && Digit(d, pos) == i && pos <= k
    ensures Narrowed(WithDigit(mask, pos, i), d, k) == Narrowed(mask, d, k)
  {
    assert !IsWild((48 + i) as char);
  }

  lemma FoundBelow(ds: set<Device>, mask: string, pos: nat, d: Device, i: nat, m: string, k: nat)
    requires GoodMask(mask, pos) && pos < 8 && IsWild(mask[pos]) && i < 10 && Digit(d, pos) == i
    requires IsSecondaryAddress(WithDigit(mask, pos, i)) && |Matching(ds, WithDigit(mask, pos, i))| >= 2
    requires FoundAt(ds, WithDigit(mask, pos, i), pos + 1, d, m, k)
    ensures FoundAt(ds, mask, pos, d, m, k)
  {
    var deeper := WithDigit(mask, pos, i);
    NarrowedFurther(mask, pos, d, i, k);
    NarrowedOnce(mask, pos, d, i);
    forall j | pos <= j < k && IsWild(mask[j]) ensures Count(ds, Narrowed(mask, d, j)) >= 2 {
      if j > pos {
        NarrowedFurther(mask, pos, d, i, j);
        assert IsWild(deeper[j]);
      }
    }
  }

  /** What a nested search found is found. */
  lemma AllFoundBelow(ds: set<Device>, mask: string, pos: nat, i: nat, hits: seq<Hit>)
    requires GoodPopulation(ds) && GoodMask(mask, pos) && pos < 8 && IsWild(mask[pos]) && i < 10
    requires IsSecondaryAddress(WithDigit(mask, pos, i)) && |Matching(ds, WithDigit(mask, pos, i))| >= 2
    requires AllFound(ds, WithDigit(mask, pos, i), pos + 1, hits)
    ensures AllFound(ds, mask, pos, hits)
  {
    forall n | 0 <= n < |hits| ensures FoundUnder(ds, mask, pos, hits[n]) {
      var d := hits[n].device;
      DigitDecides(ds, mask, pos, i, d);
      assert FoundUnder(ds, WithDigit(mask, pos, i), pos + 1, hits[n]);
      var k :| FoundAt(ds, WithDigit(mask, pos, i), pos + 1, d, hits[n].mask, k);
      FoundBelow(ds, mask, pos, d, i, hits[n].mask, k);
    }
  }

  /** A device that is alone with its digit is found. */
  lemma SingleFound(ds: set<Device>, mask: string, pos: nat, i: nat, d: Device)
    requires GoodPopulation(ds) && GoodMask(mask, pos) && pos < 8 && IsWild(mask[pos]) && i < 10
    requires IsSecondaryAddress(WithDigit(mask, pos, i)) && Matching(ds, WithDigit(mask, pos, i)) == {d}
    ensures FoundUnder(ds, mask, pos, Hit(d, WithDigit(mask, pos, i), true))
  {
    assert d in Matching(ds, WithDigit(mask, pos, i));
    DigitDecides(ds, mask, pos, i, d);
    NarrowedOnce(mask, pos, d, i);
    assert FoundAt(ds, mask, pos, d, WithDigit(mask, pos, i), pos);
  }

  /** No wildcard at `pos`: the same wildcards are ahead. */
  lemma FoundAhead(ds: set<Device>, mask: string, pos: nat, hits: seq<Hit>)
    requires |mask| == ADDRESS_LENGTH && pos < 8 && !IsWild(mask[pos]) && AllFound(ds, mask, pos + 1, hits)
    ensures AllFound(ds, mask, pos, hits)
  {
    forall i | 0 <= i < |hits| ensures FoundUnder(ds, mask, pos, hits[i]) {
      var k :| FoundAt(ds, mask, pos + 1, hits[i].device, hits[i].mask, k);
      assert FoundAt(ds, mask, pos, hits[i].device, hits[i].mask, k);
    }
  }

  // ---------------------------------------------------------------- the whole search

  /** Every hit of a search, whether or not it is stopped: the device matches the mask, and is found under
      the mask with its wildcards, up to the first one at which it is alone, replaced by its digits. */
  lemma {:induction false} HitsAreFound(c: Setup, pos: nat, mask: string, cb: Callback)
    requires GoodPopulation(c.devices) && GoodMask(mask, pos) && Wilds(mask, pos) > 0
    ensures AllFound(c.devices, mask, pos, Search(c, pos, mask, cb).hits)
    decreases 16 - pos, 12
  {
    if IsWild(mask[pos]) {
      SweepFound(c, pos, mask, cb, 0);
      SearchIsSweep(c, pos, mask, cb);
    } else {
      HitsAreFound(c, pos + 1, mask, Print);
      PassedOnHits(c, pos, mask, cb);
      NestedFound(c.devices, mask, pos + 1, Search(c, pos + 1, mask, Print).hits);
      FoundAhead(c.devices, mask, pos, Search(c, pos, mask, cb).hits);
    }
  }

  lemma PassedOnHits(c: Setup, pos: nat, mask: string, cb: Callback)
    requires |mask| == ADDRESS_LENGTH && pos < 15 && !IsWild(mask[pos])
    ensures Search(c, pos, mask, cb).hits == Nested(Search(c, pos + 1, mask, Print).hits)
  {
  }

  lemma {:induction false} SweepFound(c: Setup, pos: nat, mask: string, cb: Callback, i: nat)
    requires GoodPopulation(c.devices) && GoodMask(mask, pos) && pos < 8 && IsWild(mask[pos]) && i <= 10
    ensures AllFound(c.devices, mask, pos, Sweep(c, pos, mask, cb, i).hits)
    decreases 16 - pos, 11 - i
  {
    if i < 10 {
      OneMaskFound(c, pos, mask, i);
      SweepFound(c, pos, mask, cb, i + 1);
      SweepHits(c, pos, mask, cb, i);
    }
  }

  lemma SweepHits(c: Setup, pos: nat, mask: string, cb: Callback, i: nat)
    requires |mask| == ADDRESS_LENGTH && pos < ADDRESS_LENGTH && i < 10
    ensures
      var hits, one := Sweep(c, pos, mask, cb, i).hits, OneMask(c, pos, WithDigit(mask, pos, i)).hits;
      hits == one || hits == one + Sweep(c, pos, mask, cb, i + 1).hits
  {
  }

  lemma {:induction false} OneMaskFound(c: Setup, pos: nat, mask: string, i: nat)
    requires GoodPopulation(c.devices) && GoodMask(mask, pos) && pos < 8 && IsWild(mask[pos]) && i < 10
    ensures AllFound(c.devices, mask, pos, OneMask(c, pos, WithDigit(mask, pos, i)).hits)
    decreases 16 - pos, 1
  {
    var m := WithDigit(mask, pos, i);
    GoodMaskWithDigit(mask, pos, i);
    var here := Matching(c.devices, m);
    if |here| >= 2 {
      CollisionHasWilds(c.devices, m, pos + 1);
      HitsAreFound(c, pos + 1, m, Print);
      AllFoundBelow(c.devices, mask, pos, i, Search(c, pos + 1, m, Print).hits);
      NestedFound(c.devices, mask, pos, Search(c, pos + 1, m, Print).hits);
      CollisionRun(c, pos, m);
    } else {
      FewHits(c, pos, m);
      if |here| == 1 {
        SingleFound(c.devices, mask, pos, i, TheOne(here));
      }
    }
  }

  lemma FewHits(c: Setup, pos: nat, m: string)
    requires IsSecondaryAddress(m) && pos < ADDRESS_LENGTH && |Matching(c.devices, m)| < 2
    ensures OneMask(c, pos, m).hits ==
            if |Matching(c.devices, m)| == 1 then [Hit(TheOne(Matching(c.devices, m)), m, true)] else []
  {
  }

  // ---------------------------------------------------------------- what is reported

  /** In text: address `a` is reported with the mask `m` that has the characters of `a` in place of the
      wildcards up to character `k`, and the scanned mask's characters elsewhere; it matches one device only,
      and `k` is the first wildcard at which that is so. */
  ghost predicate ReportedAt(ds: set<Device>, mask: string, pos: nat, d: Device, a: string, m: string, k: nat) {
    && |mask| == |a| == |m| == ADDRESS_LENGTH && pos <= k < 8 && IsWild(mask[k])
    && (forall j :: 0 <= j < ADDRESS_LENGTH ==> m[j] == if j <= k && IsWild(mask[j]) then a[j] else mask[j])
    && IsSecondaryAddress(m) && Matching(ds, m) == {d}
    && forall j :: pos <= j < k && IsWild(mask[j]) ==> Count(ds, Merged(mask, a, j)) >= 2
  }

  /** The characters of `a` in place of the wildcards up to character `k`. */
  function Merged(mask: string, a: string, k: int): (m: string)
    requires |mask| == |a| == ADDRESS_LENGTH
    ensures |m| == ADDRESS_LENGTH
    ensures forall j :: 0 <= j < ADDRESS_LENGTH ==> m[j] == if j <= k && IsWild(mask[j]) then a[j] else mask[j]
  {
    seq(ADDRESS_LENGTH, j requires 0 <= j < ADDRESS_LENGTH => if j <= k && IsWild(mask[j]) then a[j] else mask[j])
  }

  /** A device that matches the scanned mask is reported by its address and such a mask. */
  ghost predicate GoodReport(ds: set<Device>, mask: string, pos: nat, report: (string, string)) {
    && IsSecondaryAddress(mask)
    && exists d, k ::
         d in Matching(ds, mask) && report.0 == RenderBytes(d.address)
         && ReportedAt(ds, mask, pos, d, report.0, report.1, k)
  }

  lemma DigitIsCharacter(d: Device, k: nat)
    requires GoodDevice(d) && k < 8
    ensures |AddressText(d)| == ADDRESS_LENGTH && AddressText(d)[k] == (48 + Digit(d, k)) as char
  {
    RenderedAt(d.address, k);
  }

  lemma NarrowedIsMerged(mask: string, d: Device, k: int)
    requires GoodDevice(d) && |mask| == ADDRESS_LENGTH && k < 8
    ensures |AddressText(d)| == ADDRESS_LENGTH && Narrowed(mask, d, k) == Merged(mask, AddressText(d), k)
  {
    forall j | 0 <= j < 8
      ensures |AddressText(d)| == ADDRESS_LENGTH && AddressText(d)[j] == (48 + Digit(d, j)) as char
    {
      DigitIsCharacter(d, j);
    }
    DigitIsCharacter(d, 0);
  }

  lemma FoundAtIsReported(ds: set<Device>, mask: string, pos: nat, d: Device, a: string, m: string, k: nat)
    requires GoodDevice(d) && FoundAt(ds, mask, pos, d, m, k) && a == AddressText(d)
    ensures ReportedAt(ds, mask, pos, d, a, m, k)
  {
    NarrowedIsMerged(mask, d, k);
    forall j | pos <= j < k && IsWild(mask[j]) ensures Count(ds, Merged(mask, a, j)) >= 2 {
      NarrowedIsMerged(mask, d, j);
    }
  }

  lemma FoundIsReported(ds: set<Device>, mask: string, pos: nat, h: Hit)
    requires GoodPopulation(ds) && FoundUnder(ds, mask, pos, h)
    ensures GoodReport(ds, mask, pos, (AddressText(h.device), h.mask))
  {
    var d, a := h.device, AddressText(h.device);
    assert GoodDevice(d);
    var k: nat :| FoundAt(ds, mask, pos, d, h.mask, k);
    FoundAtIsReported(ds, mask, pos, d, a, h.mask, k);
  }

  // ---------------------------------------------------------------- a callback that stops

  /** The hits up to and including the first own one for which the callback asks to stop. */
  function UpToStop(hits: seq<Hit>, stop: (string, string) -> bool): seq<Hit> {
    if hits == [] then []
    else [hits[0]] + if hits[0].own && stop(AddressText(hits[0].device), hits[0].mask) then []
                     else UpToStop(hits[1..], stop)
  }

  predicate NoneOwn(hits: seq<Hit>) {
    forall i :: 0 <= i < |hits| ==> !hits[i].own
  }

  lemma NestedNoneOwn(hits: seq<Hit>)
    ensures NoneOwn(Nested(hits))
  {
    forall i | 0 <= i < |hits| ensures !Nested(hits)[i].own {
      NestedAt(hits, i);
    }
  }

  lemma FirstInFront(a: seq<Hit>, b: seq<Hit>)
    requires a != []
    ensures a + b == [a[0]] + (a[1..] + b)
  {
  }

  lemma {:induction false} NoneOwnGoesOn(a: seq<Hit>, b: seq<Hit>, stop: (string, string) -> bool)
    requires NoneOwn(a)
    ensures UpToStop(a + b, stop) == a + UpToStop(b, stop)
  {
    if a == [] {
      assert a + b == b;
    } else {
      FirstInFront(a, b);
      FirstInFront(a, UpToStop(b, stop));
      FirstHit(a[0], a[1..] + b, stop);
      NoneOwnGoesOn(a[1..], b, stop);
    }
  }

  lemma FirstHit(h: Hit, b: seq<Hit>, stop: (string, string) -> bool)
    ensures UpToStop([h] + b, stop) ==
            [h] + if h.own && stop(AddressText(h.device), h.mask) then [] else UpToStop(b, stop)
  {
    assert ([h] + b)[1..] == b;
  }

  /** The hits of one pass of the loop: one own hit, or hits of a nested call. */
  lemma OneMaskOwnHits(c: Setup, pos: nat, m: string)
    requires |m| == ADDRESS_LENGTH && pos < ADDRESS_LENGTH
    ensures
      var one := OneMask(c, pos, m);
      NoneOwn(one.hits) || (one.ok && |one.hits| == 1 && one.hits[0].own)
  {
    if Verdict(c.devices, m) == Collision {
      NestedNoneOwn(Search(c, pos + 1, m, Print).hits);
    }
  }

  lemma OneThenRest(one: seq<Hit>, rest: seq<Hit>, stop: (string, string) -> bool)
    requires NoneOwn(one) || (|one| == 1 && one[0].own)
    ensures UpToStop(one + rest, stop) ==
              if one != [] && one[0].own && stop(AddressText(one[0].device), one[0].mask) then one
              else one + UpToStop(rest, stop)
    ensures UpToStop(one, stop) == one
  {
    assert one + [] == one;
    if NoneOwn(one) {
      NoneOwnGoesOn(one, rest, stop);
      NoneOwnGoesOn(one, [], stop);
    } else {
      assert one == [one[0]];
      FirstHit(one[0], rest, stop);
      FirstHit(one[0], [], stop);
    }
  }

  lemma {:induction false} SweepStops(c: Setup, pos: nat, mask: string, stop: (string, string) -> bool, i: nat)
    requires |mask| == ADDRESS_LENGTH && pos < ADDRESS_LENGTH && i <= 10
    ensures Sweep(c, pos, mask, User(stop), i).hits == UpToStop(Sweep(c, pos, mask, NoCallback, i).hits, stop)
    decreases 10 - i
  {
    if i < 10 {
      var one := OneMask(c, pos, WithDigit(mask, pos, i));
      OneMaskOwnHits(c, pos, WithDigit(mask, pos, i));
      SweepStops(c, pos, mask, stop, i + 1);
      OneThenRest(one.hits, Sweep(c, pos, mask, NoCallback, i + 1).hits, stop);
      SweepTurn(c, pos, mask, User(stop), i);
      SweepTurn(c, pos, mask, NoCallback, i);
    }
  }

  lemma SweepTurn(c: Setup, pos: nat, mask: string, cb: Callback, i: nat)
    requires |mask| == ADDRESS_LENGTH && pos < ADDRESS_LENGTH && i < 10
    ensures
      var run, one := Sweep(c, pos, mask, cb, i), OneMask(c, pos, WithDigit(mask, pos, i));
      run.hits == if !one.ok || StopsAt(cb, one) then one.hits else one.hits + Sweep(c, pos, mask, cb, i + 1).hits
  {
  }

  /** A callback that stops: for every mask and position the hits are those of a search without one, up to
      and including the first own hit for which the callback asks to stop. */
  lemma StopsAfterFirst(c: Setup, pos: int, mask: string, stop: (string, string) -> bool)
    ensures Search(c, pos, mask, User(stop)).hits == UpToStop(Search(c, pos, mask, NoCallback).hits, stop)
  {
    if |mask| == ADDRESS_LENGTH && 0 <= pos < ADDRESS_LENGTH {
      if IsWild(mask[pos]) {
        SweepStops(c, pos, mask, stop, 0);
        SearchIsSweep(c, pos, mask, User(stop));
        SearchIsSweep(c, pos, mask, NoCallback);
      } else if pos < 15 {
        PassedOnHits(c, pos, mask, User(stop));
        PassedOnHits(c, pos, mask, NoCallback);
        var hits := Nested(Search(c, pos + 1, mask, Print).hits);
        NestedNoneOwn(Search(c, pos + 1, mask, Print).hits);
        OneThenRest(hits, [], stop);
      } else {
        OneMaskOwnHits(c, pos, mask);
        OneThenRest(OneMask(c, pos, mask).hits, [], stop);
      }
    }
  }
}
