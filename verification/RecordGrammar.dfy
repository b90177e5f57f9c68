/** The grammar of the variable data structure in terms of its bytes: section 6.3 of "The M-Bus: A
    Documentation", without the functions that parser and tiling share. */
module RecordGrammar {
  import opened Bytes
  import opened Records
  import opened RecordLaws

  /** Every byte but the last one has the extension bit. */
  predicate Extended(s: seq<byte>) {
    s != [] && s[|s| - 1] < 0x80 && forall k :: 0 <= k < |s| - 1 ==> s[k] >= 0x80
  }

  lemma {:induction false} ChainExactly(s: seq<byte>)
    ensures Chain(s) <==> Extended(s)
  {
    if |s| > 1 {
      ChainExactly(s[1..]);
      assert forall k :: 0 < k < |s| ==> s[k] == s[1..][k - 1];
      assert s[1..][|s| - 2] == s[|s| - 1];
    }
  }

  /** Which width the low nibble of a DIF stands for, variable length aside. */
  predicate HasWidth(c: nat, n: nat) {
    && (c % 8 <= 4 ==> n == c % 8)
    && (c == 5 ==> n == 4)
    && (c == 6 || c == 14 ==> n == 6)
    && (c == 7 || c == 15 ==> n == 8)
  }

  lemma WidthExactly(dif: byte, n: nat)
    ensures dif % 0x10 != 0x0D ==> (DataLength(dif) == n <==> HasWidth(dif % 0x10, n))
  {
  }

  /** Which length an LVAR byte stands for: C0 to DF count double, and bytes from FB on stand
      for none. */
  predicate HasLength(b: byte, n: nat) {
    && (b <= 0xBF ==> n == b)
    && (0xC0 <= b <= 0xCF ==> n == 2 * (b - 0xC0))
    && (0xD0 <= b <= 0xDF ==> n == 2 * (b - 0xD0))
    && (0xE0 <= b <= 0xEF ==> n == b - 0xE0)
    && (0xF0 <= b <= 0xFA ==> n == b - 0xF0)
    && b <= 0xFA
  }

  lemma LengthExactly(b: byte, n: nat)
    ensures LvarLength(b) == Some(n) <==> HasLength(b, n)
    ensures LvarLength(b) == None <==> b >= 0xFB
  {
  }

  /** The parts of an ordinary record, accepted exactly if: the DIF is no filler and no manufacturer
      specific block, with up to ten DIFE; the VIF is alone or, as 7C or FC, is followed by the length
      of its text, up to 128, and the text; it has up to ten VIFE exactly if it has the extension bit;
      the data has the width of the DIF or the length of the LVAR byte, which is missing only if the
      byte behind the record is none. */
  lemma OrdinaryPartsExactly(p: Parts, following: byte)
    ensures GoodParts(p, following) <==>
              && Extended(p.dib) && |p.dib| <= 11 && p.dib[0] != 0x2F && p.dib[0] != 0x0F && p.dib[0] != 0x1F
              && p.vif != []
              && (if p.vif[0] % 0x80 == 0x7C then |p.vif| >= 2 && |p.vif| - 2 == p.vif[1] <= 128 else |p.vif| == 1)
              && (if p.vif[0] < 0x80 then p.vife == [] else Extended(p.vife) && |p.vife| <= 10)
              && (if p.dib[0] % 0x10 != 0x0D then p.lvar == [] && HasWidth(p.dib[0] % 0x10, |p.data|)
                  else if p.lvar == [] then p.data == [] && following >= 0xFB
                  else |p.lvar| == 1 && HasLength(p.lvar[0], |p.data|))
  {
    ChainExactly(p.dib);
    ChainExactly(p.vife);
    if p.dib != [] {
      WidthExactly(p.dib[0], |p.data|);
    }
    if p.lvar != [] {
      LengthExactly(p.lvar[0], |p.data|);
    }
    LengthExactly(following, 0);
  }

  /** A manufacturer specific block: its DIF, 0F or 1F, and data. */
  lemma TailPartsExactly(p: Parts)
    ensures IsTailPart(p) <==> (p.dib == [0x0F] || p.dib == [0x1F]) && p.vif == [] && p.vife == [] && p.lvar == []
  {
    if |p.dib| == 1 {
      assert p.dib == [p.dib[0]];
    }
  }

  /** Every record of an accepted telegram, by its bytes: the last one may be a manufacturer specific
      block, in which 1F announces more telegrams; all others have the width that their DIF or their
      LVAR byte stands for. */
  lemma {:induction false} RecordWidths(mem: seq<byte>, size: nat, i: nat, ps: seq<Piece>, k: nat)
    requires size + 2 <= |mem| && i <= size && Tiles(mem, size, i, ps) && k < |ps| && ps[k].Rec?
    ensures
      var p := ps[k].parts;
      && p.dib != []
      && if p.dib[0] == 0x0F || p.dib[0] == 0x1F then
           k == |ps| - 1 && |p.dib| == 1 && p.vif + p.vife + p.lvar == []
         else
           && Extended(p.dib) && p.dib[0] != 0x2F
           && (p.dib[0] % 0x10 != 0x0D ==> p.lvar == [] && HasWidth(p.dib[0] % 0x10, |p.data|))
           && (p.dib[0] % 0x10 == 0x0D ==> if p.lvar == [] then p.data == [] else HasLength(p.lvar[0], |p.data|))
    decreases k
  {
    var end := i + if ps[0].Filler? then 1 else |WireOf(ps[0].parts)|;
    if k > 0 {
      RecordWidths(mem, size, end, ps[1..], k - 1);
    } else {
      var p := ps[0].parts;
      TailPartsExactly(p);
      OrdinaryPartsExactly(p, mem[end]);
      if IsTailPart(p) {
        NothingAfterTheEnd(mem, size, ps[1..]);
      }
    }
  }

  /** A filler leaves no record, and every other piece one, in order. */
  lemma RecordsInOrder(ps: seq<Piece>, p: Parts)
    requires p.dib != []
    ensures RecordsOf([]) == [] && RecordsOf(ps + [Filler]) == RecordsOf(ps)
    ensures RecordsOf(ps + [Rec(p)]) == RecordsOf(ps) + [RecordOf(p)]
  {
    RecordsOfAppend(ps, Filler);
    RecordsOfAppend(ps, Rec(p));
    assert [Filler][1..] == [] && [Rec(p)][1..] == [];
  }

  lemma {:induction false} ReversedAt(s: seq<byte>, k: nat)
    requires k < |s|
    ensures Reversed(s)[k] == s[|s| - 1 - k]
  {
    if k > 0 {
      ReversedAt(s[..|s| - 1], k - 1);
    }
  }

  /** The record that is built from the parts; a custom VIF is turned around. */
  lemma RecordFromParts(p: Parts)
    requires p.dib != []
    ensures
      var r := RecordOf(p);
      && r.dif == p.dib[0] && r.dife == p.dib[1..] && r.vife == p.vife && r.data == p.data
      && (p.vif != [] ==> r.vif == p.vif[0])
      && |r.customVif| == (if |p.vif| >= 2 then |p.vif| - 2 else 0)
      && forall k :: 0 <= k < |r.customVif| ==> r.customVif[k] == p.vif[|p.vif| - 1 - k]
  {
    if |p.vif| >= 2 {
      forall k | 0 <= k < |p.vif| - 2 ensures Reversed(p.vif[2..])[k] == p.vif[|p.vif| - 1 - k] {
        ReversedAt(p.vif[2..], k);
      }
    }
  }
}
