/** Where the search does less than its documentation says: what a caller's callback gets to hear,
    and what is found for a mask whose ID has no wildcard. */
module ScanLimits {
  import opened SecondaryAddress
  import opened Bus
  import opened Scan

  // ---------------------------------------------------------------- the caller's callback

  /** The devices for which the calling level itself calls back. */
  function Own(hits: seq<Hit>): set<Device> {
    if hits == [] then {} else (if hits[0].own then {hits[0].device} else {}) + Own(hits[1..])
  }

  lemma {:induction false} OwnAppend(a: seq<Hit>, b: seq<Hit>)
    ensures Own(a + b) == Own(a) + Own(b)
  {
    if a == [] {
      assert a + b == b;
    } else {
      assert (a + b)[1..] == a[1..] + b;
      OwnAppend(a[1..], b);
    }
  }

  lemma {:induction false} NestedIsNotOwn(hits: seq<Hit>)
    ensures Own(Nested(hits)) == {}
  {
    if hits != [] {
      NestedIsNotOwn(hits[1..]);
    }
  }

  /** The devices of `ds` that no other device of `ds` shares the digit at `pos` with. */
  function Alone(ds: set<Device>, pos: nat): set<Device>
    requires pos < ADDRESS_LENGTH
  {
    set d | d in ds && |At(ds, pos, Digit(d, pos))| == 1
  }

  lemma OneMaskOwn(c: Setup, pos: nat, mask: string, i: nat)
    requires GoodPopulation(c.devices) && GoodMask(mask, pos) && pos < 8 && IsWild(mask[pos]) && i < 10
    ensures
      var want := Matching(c.devices, mask);
      Own(OneMask(c, pos, WithDigit(mask, pos, i)).hits) == if |At(want, pos, i)| == 1 then At(want, pos, i) else {}
  {
    DigitPartitions(c.devices, mask, pos, i);
    var m := WithDigit(mask, pos, i);
    var here := Matching(c.devices, m);
    var one := OneMask(c, pos, m);
    if |here| == 1 {
      assert one.hits == [Hit(TheOne(here), m, true)];
      assert one.hits[1..] == [];
    } else if |here| >= 2 {
      NestedIsNotOwn(Search(c, pos + 1, m, Print).hits);
    }
  }

  lemma {:induction false} SweepOwn(c: Setup, pos: nat, mask: string, cb: Callback, i: nat)
    requires GoodPopulation(c.devices) && GoodMask(mask, pos) && pos < 8 && IsWild(mask[pos]) && NeverStops(cb)
    requires i <= 10
    ensures Own(Sweep(c, pos, mask, cb, i).hits) ==
              Alone(Matching(c.devices, mask), pos) * From(Matching(c.devices, mask), pos, i)
    decreases 10 - i
  {
    var want := Matching(c.devices, mask);
    if i == 10 {
      NoDigitAboveNine(c.devices, mask, pos);
    } else {
      OneMaskDelivers(c, pos, mask, i);
      OneMaskOwn(c, pos, mask, i);
      SweepOwn(c, pos, mask, cb, i + 1);
      SweepStep(c, pos, mask, cb, i);
      OwnJoins(OneMask(c, pos, WithDigit(mask, pos, i)), Sweep(c, pos, mask, cb, i + 1), want, pos, i);
    }
  }

  lemma OwnJoins(one: Run, rest: Run, want: set<Device>, pos: nat, i: nat)
    requires pos < ADDRESS_LENGTH
    requires Own(one.hits) == if |At(want, pos, i)| == 1 then At(want, pos, i) else {}
    requires Own(rest.hits) == Alone(want, pos) * From(want, pos, i + 1)
    ensures Own(Then(one, rest).hits) == Alone(want, pos) * From(want, pos, i)
  {
    OwnAppend(one.hits, rest.hits);
    AloneSplits(want, pos, i);
  }

  lemma AloneSplits(ds: set<Device>, pos: nat, i: nat)
    requires pos < ADDRESS_LENGTH
    ensures Alone(ds, pos) * From(ds, pos, i) ==
              (if |At(ds, pos, i)| == 1 then At(ds, pos, i) else {}) + Alone(ds, pos) * From(ds, pos, i + 1)
  {
  }

  /** mbus_probe_secondary_range is documented to call back for each match. A callback that never
      stops hears exactly the devices that are alone on their digit at `pos`, and none at all when
      there is no wildcard at `pos`: it hears of every match exactly when no probe of its own level
      collides. The devices of nested levels are printed instead. */
  lemma CallbackHearsExactly(c: Setup, pos: nat, mask: string, cb: Callback)
    requires GoodPopulation(c.devices) && GoodMask(mask, pos) && pos < 8 && NeverStops(cb)
    ensures
      var want := Matching(c.devices, mask);
      && Own(Search(c, pos, mask, cb).hits) == (if IsWild(mask[pos]) then Alone(want, pos) else {})
      && (Own(Search(c, pos, mask, cb).hits) == want <==>
            want == {} || (IsWild(mask[pos]) && forall d :: d in want ==> |At(want, pos, Digit(d, pos))| == 1))
  {
    var want := Matching(c.devices, mask);
    if IsWild(mask[pos]) {
      SweepOwn(c, pos, mask, cb, 0);
      assert Alone(want, pos) * From(want, pos, 0) == Alone(want, pos);
      AllAlone(want, pos);
    } else {
      NestedIsNotOwn(Search(c, pos + 1, mask, Print).hits);
    }
  }

  lemma AllAlone(ds: set<Device>, pos: nat)
    requires pos < ADDRESS_LENGTH
    ensures Alone(ds, pos) == ds <==> forall d :: d in ds ==> |At(ds, pos, Digit(d, pos))| == 1
  {
    assert forall d :: d in Alone(ds, pos) <==> d in ds && |At(ds, pos, Digit(d, pos))| == 1;
  }

  // ---------------------------------------------------------------- masks without a wildcard in the ID

  /** The first wildcard from `pos` on, or the length of the mask. */
  function FirstWild(mask: string, pos: nat): (p: nat)
    requires |mask| == ADDRESS_LENGTH && pos <= ADDRESS_LENGTH
    ensures pos <= p <= ADDRESS_LENGTH && (p < ADDRESS_LENGTH ==> IsWild(mask[p]))
    decreases ADDRESS_LENGTH - pos
  {
    if pos == ADDRESS_LENGTH || IsWild(mask[pos]) then pos else FirstWild(mask, pos + 1)
  }

  /** The other character of the same byte. */
  function Partner(p: nat): (q: nat)
    requires p < ADDRESS_LENGTH
    ensures q < ADDRESS_LENGTH && q != p && q / 2 == p / 2
  {
    if p % 2 == 0 then p + 1 else p - 1
  }

  /** The devices that match the mask in all but the byte of character `p`. */
  function Candidates(ds: set<Device>, mask: string, p: nat): set<Device>
    requires IsSecondaryAddress(mask) && p < ADDRESS_LENGTH
  {
    set d | d in ds && |d.address| >= 8 && IdMatches(mask, d) && OthersMatch(mask, p, d)
  }

  predicate IdMatches(mask: string, d: Device)
    requires IsSecondaryAddress(mask)
  {
    forall k :: 0 <= k < 8 ==> IsWild(mask[k]) || Digit(d, k) == CharNibble(mask, k)
  }

  predicate OthersMatch(mask: string, p: nat, d: Device)
    requires IsSecondaryAddress(mask)
  {
    |d.address| >= 8 && forall j :: 4 <= j < 8 && j != p / 2 ==> ByteMatches(SelectData(mask)[j], d.address[j])
  }

  /** The candidates that a search filling in the digits 0 to 9 at the wildcard `p` comes across. */
  function Found(ds: set<Device>, mask: string, p: nat): set<Device>
    requires IsSecondaryAddress(mask) && p < ADDRESS_LENGTH
  {
    set d | d in Candidates(ds, mask, p) && Digit(d, p) < 10 && Digit(d, Partner(p)) == CharNibble(mask, Partner(p))
  }

  /** A byte of the mask behind the ID against the digits of a device. */
  lemma TailByte(mask: string, d: Device, p: nat)
    requires IsSecondaryAddress(mask) && 8 <= p < ADDRESS_LENGTH && |d.address| >= 8
    ensures ByteMatches(SelectData(mask)[p / 2], d.address[p / 2]) <==>
              || (IsWild(mask[p]) && IsWild(mask[Partner(p)]))
              || (Digit(d, p) == CharNibble(mask, p) && Digit(d, Partner(p)) == CharNibble(mask, Partner(p)))
  {
    var j := p / 2;
    IdCharacterPair(mask, j);
    TailDigits(d, j);
    PairMatches(CharNibble(mask, 2 * j), CharNibble(mask, 2 * j + 1), Digit(d, 2 * j), Digit(d, 2 * j + 1));
    assert p == 2 * j || p == 2 * j + 1;
  }

  lemma TailDigits(d: Device, j: nat)
    requires |d.address| >= 8 && 4 <= j < 8
    ensures Digit(d, 2 * j) < 16 && Digit(d, 2 * j + 1) < 16
    ensures d.address[j] == Pair(Digit(d, 2 * j), Digit(d, 2 * j + 1))
  {
    assert InOrder(d.address)[j] == d.address[j];
  }

  lemma PairMatches(a: nat, b: nat, x: nat, y: nat)
    requires a < 16 && b < 16 && x < 16 && y < 16
    ensures ByteMatches(Pair(a, b), Pair(x, y)) <==> (a == 15 && b == 15) || (a == x && b == y)
  {
  }

  lemma IdCharacterPair(mask: string, j: nat)
    requires IsSecondaryAddress(mask) && 4 <= j < 8
    ensures SelectData(mask)[j] == Pair(CharNibble(mask, 2 * j), CharNibble(mask, 2 * j + 1))
    ensures CharNibble(mask, 2 * j) == 15 <==> IsWild(mask[2 * j])
    ensures CharNibble(mask, 2 * j + 1) == 15 <==> IsWild(mask[2 * j + 1])
  {
    IdCharacter(mask, 2 * j);
    IdCharacter(mask, 2 * j + 1);
  }

  /** A device matches a mask if it is a candidate and its byte at `p` matches, too. */
  lemma MatchesAsCandidate(ds: set<Device>, mask: string, p: nat, d: Device)
    requires GoodPopulation(ds) && IsSecondaryAddress(mask) && 8 <= p < ADDRESS_LENGTH && d in ds
    ensures |d.address| >= 8
    ensures d in Matching(ds, mask) <==>
              d in Candidates(ds, mask, p) && ByteMatches(SelectData(mask)[p / 2], d.address[p / 2])
  {
    assert GoodDevice(d);
    MatchesByDigits(ds, mask, d);
  }

  lemma SameCandidates(ds: set<Device>, mask: string, p: nat, i: nat)
    requires IsSecondaryAddress(mask) && 8 <= p < ADDRESS_LENGTH && i < 10
    ensures IsSecondaryAddress(WithDigit(mask, p, i))
    ensures Candidates(ds, WithDigit(mask, p, i), p) == Candidates(ds, mask, p)
  {
    var m := WithDigit(mask, p, i);
    FilledIn(mask, p, i);
    forall j | 4 <= j < 8 && j != p / 2 ensures SelectData(m)[j] == SelectData(mask)[j] {
      IdCharacterPair(mask, j);
      IdCharacterPair(m, j);
    }
    assert forall d :: IdMatches(m, d) <==> IdMatches(mask, d);
    assert forall d :: OthersMatch(m, p, d) <==> OthersMatch(mask, p, d);
  }

  lemma FilledInMatchesOne(ds: set<Device>, mask: string, p: nat, i: nat, d: Device)
    requires GoodPopulation(ds) && IsSecondaryAddress(mask) && 8 <= p < ADDRESS_LENGTH && i < 10 && d in ds
    ensures IsSecondaryAddress(WithDigit(mask, p, i))
    ensures d in Matching(ds, WithDigit(mask, p, i)) <==> d in Found(ds, mask, p) && Digit(d, p) == i
  {
    var m := WithDigit(mask, p, i);
    FilledIn(mask, p, i);
    SameCandidates(ds, mask, p, i);
    MatchesAsCandidate(ds, m, p, d);
    TailByte(m, d, p);
    assert CharNibble(m, p) == i && !IsWild(m[p]) && CharNibble(m, Partner(p)) == CharNibble(mask, Partner(p));
  }

  /** What matches with digit i filled in at the wildcard. */
  lemma FilledInMatches(ds: set<Device>, mask: string, p: nat, i: nat)
    requires GoodPopulation(ds) && GoodMask(mask, 8) && 8 <= p < ADDRESS_LENGTH && IsWild(mask[p]) && i < 10
    ensures GoodMask(WithDigit(mask, p, i), 8)
    ensures Matching(ds, WithDigit(mask, p, i)) == At(Found(ds, mask, p), p, i)
  {
    FilledIn(mask, p, i);
    forall d | d in ds ensures d in Matching(ds, WithDigit(mask, p, i)) <==> d in At(Found(ds, mask, p), p, i) {
      FilledInMatchesOne(ds, mask, p, i, d);
    }
  }

  lemma {:induction false} TailSweep(c: Setup, pos: nat, mask: string, cb: Callback, i: nat)
    requires GoodPopulation(c.devices) && GoodMask(mask, 8) && NeverStops(cb)
    requires 8 <= pos < ADDRESS_LENGTH && IsWild(mask[pos]) && i <= 10
    ensures
      var run := Sweep(c, pos, mask, cb, i);
      run.ok && Delivers(c, run.hits, From(Found(c.devices, mask, pos), pos, i))
    decreases 10 - i
  {
    var found := Found(c.devices, mask, pos);
    if i == 10 {
      assert From(found, pos, i) == {};
    } else {
      TailProbe(c, pos, mask, i);
      TailSweep(c, pos, mask, cb, i + 1);
      SweepStep(c, pos, mask, cb, i);
      FromSplits(found, pos, i);
      DeliversThen(c, OneMask(c, pos, WithDigit(mask, pos, i)).hits, Sweep(c, pos, mask, cb, i + 1).hits,
                   At(found, pos, i), From(found, pos, i + 1));
    }
  }

  lemma TailProbe(c: Setup, pos: nat, mask: string, i: nat)
    requires GoodPopulation(c.devices) && GoodMask(mask, 8)
    requires 8 <= pos < ADDRESS_LENGTH && IsWild(mask[pos]) && i < 10
    ensures
      var one := OneMask(c, pos, WithDigit(mask, pos, i));
      one.ok && Delivers(c, one.hits, At(Found(c.devices, mask, pos), pos, i))
  {
    FilledInMatches(c.devices, mask, pos, i);
    NoWildsNoCollision(c.devices, WithDigit(mask, pos, i));
    FewDeliver(c, pos, WithDigit(mask, pos, i));
  }

  /** What a search of a mask without a wildcard in its ID reports, exactly once each: with no wildcard
      from `pos` on the device that matches, otherwise what is found at the first one. */
  lemma {:induction false} FullIdDelivers(c: Setup, pos: nat, mask: string, cb: Callback)
    requires GoodPopulation(c.devices) && GoodMask(mask, 8) && pos < ADDRESS_LENGTH && NeverStops(cb)
    ensures
      var run, p := Search(c, pos, mask, cb), FirstWild(mask, pos);
      && run.ok
      && Delivers(c, run.hits, if p < ADDRESS_LENGTH then Found(c.devices, mask, p) else Matching(c.devices, mask))
    decreases ADDRESS_LENGTH - pos
  {
    if IsWild(mask[pos]) {
      TailSweep(c, pos, mask, cb, 0);
      FromAll(Found(c.devices, mask, pos), pos);
      SearchIsSweep(c, pos, mask, cb);
    } else if pos < 15 {
      FullIdDelivers(c, pos + 1, mask, Print);
      var p := FirstWild(mask, pos + 1);
      PassedOn(c, pos, mask, cb, if p < ADDRESS_LENGTH then Found(c.devices, mask, p) else Matching(c.devices, mask));
    } else {
      NoWildsNoCollision(c.devices, mask);
      FewDeliver(c, pos, mask);
    }
  }

  /** When what is found at wildcard `p` is what the mask matches: with the whole byte wild, if the
      byte of the candidate has a digit at `p` and F beside it; with a literal character beside it, if
      no candidate with that character has a digit or F at `p`. */
  predicate FoundIsMatching(ds: set<Device>, mask: string, p: nat)
    requires IsSecondaryAddress(mask) && p < ADDRESS_LENGTH
  {
    var q := Partner(p);
    forall d :: d in Candidates(ds, mask, p) ==>
      if IsWild(mask[q]) then Digit(d, p) < 10 && Digit(d, q) == 15
      else Digit(d, q) == CharNibble(mask, q) ==> 10 <= Digit(d, p) < 15
  }

  lemma FoundIsMatchingExactly(ds: set<Device>, mask: string, p: nat)
    requires GoodPopulation(ds) && IsSecondaryAddress(mask) && 8 <= p < ADDRESS_LENGTH && IsWild(mask[p])
    ensures Found(ds, mask, p) == Matching(ds, mask) <==> FoundIsMatching(ds, mask, p)
  {
    var q := Partner(p);
    IdCharacterPair(mask, p / 2);
    forall d | d in ds
      ensures d in Matching(ds, mask) <==>
                && d in Candidates(ds, mask, p)
                && (IsWild(mask[q]) || (Digit(d, p) == 15 && Digit(d, q) == CharNibble(mask, q)))
    {
      MatchesAsCandidate(ds, mask, p, d);
      TailByte(mask, d, p);
    }
    if FoundIsMatching(ds, mask, p) {
      assert forall d :: d in Candidates(ds, mask, p) ==> d in ds;
      assert Found(ds, mask, p) == Matching(ds, mask);
    } else {
      var d :| d in Candidates(ds, mask, p) &&
        !(if IsWild(mask[q]) then Digit(d, p) < 10 && Digit(d, q) == 15
          else Digit(d, q) == CharNibble(mask, q) ==> 10 <= Digit(d, p) < 15);
      NibbleBound(d, p);
      assert d in ds && (d in Found(ds, mask, p) <==> d !in Matching(ds, mask));
    }
  }

  lemma NibbleBound(d: Device, p: nat)
    requires p < ADDRESS_LENGTH
    ensures Digit(d, p) < 16
  {
  }

  /** A search of any mask without a wildcard in its ID reports exactly the device that matches, if
      there is one, if and only if there is no wildcard from `pos` on, or the condition holds at the
      first one. */
  lemma FullIdSearch(c: Setup, pos: nat, mask: string, cb: Callback)
    requires GoodPopulation(c.devices) && GoodMask(mask, 8) && pos < ADDRESS_LENGTH && NeverStops(cb)
    ensures
      var run, p := Search(c, pos, mask, cb), FirstWild(mask, pos);
      && run.ok && Unambiguous(c.devices, run.hits)
      && (ExactlyOnce(run.hits, Matching(c.devices, mask)) <==>
            p == ADDRESS_LENGTH || FoundIsMatching(c.devices, mask, p))
  {
    FullIdDelivers(c, pos, mask, cb);
    var p := FirstWild(mask, pos);
    if p < ADDRESS_LENGTH {
      FoundIsMatchingExactly(c.devices, mask, p);
      ExactlyOneSet(Search(c, pos, mask, cb).hits, Found(c.devices, mask, p), Matching(c.devices, mask));
    }
  }

  lemma ExactlyOneSet(hits: seq<Hit>, a: set<Device>, b: set<Device>)
    requires ExactlyOnce(hits, a)
    ensures ExactlyOnce(hits, b) <==> a == b
  {
    if multiset(a) == multiset(b) {
      assert forall d :: d in a <==> d in multiset(b);
    }
  }
}
