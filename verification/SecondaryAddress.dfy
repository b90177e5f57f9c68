/** Secondary addresses: the sixteen characters of a select mask, the eight bytes of a select
    telegram, and the rendering of a reply's address. */
module SecondaryAddress {
  import opened Bytes
  import opened FrameBuffer
  import opened Application
  import opened RecordParser

  const SELECT_CONTROL: byte := 0x73
  const NETWORK_LAYER: byte := 0xFD
  const SELECT_SLAVE: byte := 0x52
  const ADDRESS_LENGTH := 16

  predicate IsHexDigit(c: char) {
    '0' <= c <= '9' || 'a' <= c <= 'f' || 'A' <= c <= 'F'
  }

  predicate AllHex(s: string) {
    s == [] || (IsHexDigit(s[0]) && AllHex(s[1..]))
  }

  /** mbus_is_secondary_address. */
  predicate IsSecondaryAddress(s: string) {
    |s| == ADDRESS_LENGTH && AllHex(s)
  }

  lemma {:induction false} HexAt(s: string, k: nat)
    requires AllHex(s) && k < |s|
    ensures IsHexDigit(s[k])
  {
    if k > 0 {
      HexAt(s[1..], k - 1);
    }
  }

  function HexValue(c: char): nat
    requires IsHexDigit(c)
    ensures HexValue(c) < 16
  {
    if c <= '9' then c as int - '0' as int
    else if c <= 'F' then c as int - 'A' as int + 10
    else c as int - 'a' as int + 10
  }

  predicate IsWild(c: char) {
    c == 'F' || c == 'f'
  }

  /** The nibble of an ID character: F for the wildcard, else the low bits of its distance from '0'. */
  function IdNibble(c: char): nat
    requires IsHexDigit(c)
    ensures IdNibble(c) < 16
  {
    if IsWild(c) then 15 else (c as int - '0' as int) % 16
  }

  function Pair(high: nat, low: nat): byte
    requires high < 16 && low < 16
  {
    16 * high + low
  }

  /** The nibble that stands for character k. */
  function CharNibble(a: string, k: nat): nat
    requires IsSecondaryAddress(a) && k < ADDRESS_LENGTH
    ensures CharNibble(a, k) < 16
  {
    HexAt(a, k);
    if k < 8 then IdNibble(a[k]) else HexValue(a[k])
  }

  function CharPair(a: string, k: nat): byte
    requires IsSecondaryAddress(a) && k + 1 < ADDRESS_LENGTH
  {
    Pair(CharNibble(a, k), CharNibble(a, k + 1))
  }

  /** The eight data bytes of the select telegram: the ID back to front, then the rest in order. */
  function SelectData(a: string): (d: seq<byte>)
    requires IsSecondaryAddress(a)
    ensures |d| == 8
  {
    [CharPair(a, 6), CharPair(a, 4), CharPair(a, 2), CharPair(a, 0),
     CharPair(a, 8), CharPair(a, 10), CharPair(a, 12), CharPair(a, 14)]
  }

  /** The address bytes in the order of their characters. */
  function InOrder(d: seq<byte>): (s: seq<byte>)
    requires |d| >= 8
    ensures |s| == 8
  {
    [d[3], d[2], d[1], d[0], d[4], d[5], d[6], d[7]]
  }

  /** The nibble at the place of character k. */
  function Nibble(d: seq<byte>, k: nat): nat
    requires |d| >= 8 && k < ADDRESS_LENGTH
    ensures Nibble(d, k) < 16
  {
    if k % 2 == 0 then InOrder(d)[k / 2] / 16 else InOrder(d)[k / 2] % 16
  }

  function HexChar(n: nat): char
    requires n < 16
  {
    if n < 10 then (48 + n) as char else (55 + n) as char
  }

  /** The n lowest hexadecimal digits of a number, highest first. */
  function Hex(v: nat, n: nat): (s: string)
    ensures |s| == n
  {
    if n == 0 then [] else Hex(v / 16, n - 1) + [HexChar(v % 16)]
  }

  /** mbus_data_bcd_decode_hex: bytes, lowest first, as one number. */
  function DecodeHex(s: seq<byte>): nat {
    if s == [] then 0 else s[0] + 256 * DecodeHex(s[1..])
  }

  /** The address text of mbus_frame_get_secondary_address. */
  function Render(id: seq<byte>, manufacturer: seq<byte>, version: byte, medium: byte): string
    requires |id| == 4 && |manufacturer| == 2
  {
    Hex(DecodeHex(id), 8) + Hex(manufacturer[0], 2) + Hex(manufacturer[1], 2) + Hex(version, 2) + Hex(medium, 2)
  }

  function RenderBytes(d: seq<byte>): string
    requires |d| >= 8
  {
    Render(d[..4], d[4..6], d[6], d[7])
  }

  function Upper(c: char): char {
    if 'a' <= c <= 'z' then (c as int - 32) as char else c
  }

  // ---------------------------------------------------------------- rendering

  lemma HexOfByte(b: byte)
    ensures Hex(b, 2) == [HexChar(b / 16), HexChar(b % 16)]
  {
    assert Hex(b / 16, 1) == Hex(b / 16 / 16, 0) + [HexChar(b / 16)];
  }

  lemma HexStep(b: byte, v: nat, n: nat)
    ensures Hex(b + 256 * v, n + 2) == Hex(v, n) + Hex(b, 2)
  {
    var w := b + 256 * v;
    assert w / 16 / 16 == v && w / 16 % 16 == b / 16 && w % 16 == b % 16;
    assert Hex(w, n + 2) == Hex(w / 16, n + 1) + [HexChar(w % 16)];
    assert Hex(w / 16, n + 1) == Hex(v, n) + [HexChar(b / 16)];
    HexOfByte(b);
  }

  /** Two digits for each byte. */
  function Pairs(bs: seq<byte>): (s: string)
    ensures |s| == 2 * |bs|
  {
    if bs == [] then [] else Hex(bs[0], 2) + Pairs(bs[1..])
  }

  lemma {:induction false} PairsAt(bs: seq<byte>, k: nat)
    requires k < 2 * |bs|
    ensures Pairs(bs)[k] == HexChar(if k % 2 == 0 then bs[k / 2] / 16 else bs[k / 2] % 16)
  {
    HexOfByte(bs[0]);
    if k >= 2 {
      PairsAt(bs[1..], k - 2);
    }
  }

  lemma {:induction false} PairsAppend(a: seq<byte>, b: seq<byte>)
    ensures Pairs(a + b) == Pairs(a) + Pairs(b)
  {
    if a == [] {
      assert a + b == b;
    } else {
      assert (a + b)[1..] == a[1..] + b;
      PairsAppend(a[1..], b);
    }
  }

  lemma PairsOne(b: byte)
    ensures Pairs([b]) == Hex(b, 2)
  {
  }

  lemma {:induction false} HexOfBytes(s: seq<byte>)
    ensures Hex(DecodeHex(s), 2 * |s|) == Pairs(Reversed(s))
  {
    if s != [] {
      HexOfBytes(s[1..]);
      ReversedFromFront(s);
      HexStep(s[0], DecodeHex(s[1..]), 2 * |s| - 2);
      PairsAppend(Reversed(s[1..]), [s[0]]);
      PairsOne(s[0]);
    }
  }

  lemma ReversedFour(s: seq<byte>)
    requires |s| == 4
    ensures Reversed(s) == [s[3], s[2], s[1], s[0]]
  {
    assert s[..3][..2] == s[..2] && s[..2][..1] == s[..1] && s[..1][..0] == [];
    assert Reversed(s[..1]) == [s[0]];
    assert Reversed(s[..2]) == [s[1], s[0]];
    assert Reversed(s[..3]) == [s[2], s[1], s[0]];
  }

  lemma RenderedPairs(d: seq<byte>)
    requires |d| >= 8
    ensures RenderBytes(d) == Pairs(InOrder(d))
  {
    var id := d[..4];
    HexOfBytes(id);
    ReversedFour(id);
    var back := [d[3], d[2], d[1], d[0]];
    PairsAppend(back, [d[4]]);
    PairsAppend(back + [d[4]], [d[5]]);
    PairsAppend(back + [d[4]] + [d[5]], [d[6]]);
    PairsAppend(back + [d[4]] + [d[5]] + [d[6]], [d[7]]);
    PairsOne(d[4]);
    PairsOne(d[5]);
    PairsOne(d[6]);
    PairsOne(d[7]);
    assert back + [d[4]] + [d[5]] + [d[6]] + [d[7]] == InOrder(d);
  }

  /** Character k of a rendered address is the digit of nibble k. */
  lemma RenderedAt(d: seq<byte>, k: nat)
    requires |d| >= 8 && k < ADDRESS_LENGTH
    ensures |RenderBytes(d)| == ADDRESS_LENGTH && RenderBytes(d)[k] == HexChar(Nibble(d, k))
  {
    RenderedPairs(d);
    PairsAt(InOrder(d), k);
  }

  lemma PairNibbles(high: nat, low: nat)
    requires high < 16 && low < 16
    ensures Pair(high, low) / 16 == high && Pair(high, low) % 16 == low
  {
  }

  /** Nibble k of the select data is that of character k. */
  lemma SelectNibble(a: string, k: nat)
    requires IsSecondaryAddress(a) && k < ADDRESS_LENGTH
    ensures Nibble(SelectData(a), k) == CharNibble(a, k)
  {
    var j := k / 2;
    assert InOrder(SelectData(a))[j] == CharPair(a, 2 * j);
    PairNibbles(CharNibble(a, 2 * j), CharNibble(a, 2 * j + 1));
  }

  predicate DecimalOrWild(c: char) {
    '0' <= c <= '9' || IsWild(c)
  }

  lemma CharRoundTrip(c: char)
    requires IsHexDigit(c)
    ensures HexChar(HexValue(c)) == Upper(c)
    ensures HexChar(IdNibble(c)) == Upper(c) <==> DecimalOrWild(c)
  {
  }

  /** The rendering of the selected bytes gives back the address, in upper case, exactly when its
      first eight characters are decimal digits or wildcards: an ID digit A to E is sent as 1 to 5. */
  lemma AddressRoundTripExactly(a: string)
    requires IsSecondaryAddress(a)
    ensures |RenderBytes(SelectData(a))| == ADDRESS_LENGTH
    ensures (forall k :: 0 <= k < ADDRESS_LENGTH ==> RenderBytes(SelectData(a))[k] == Upper(a[k]))
            <==> (forall k :: 0 <= k < 8 ==> DecimalOrWild(a[k]))
  {
    RenderedAt(SelectData(a), 0);
    forall k | 0 <= k < ADDRESS_LENGTH
      ensures RenderBytes(SelectData(a))[k] == Upper(a[k]) <==> (k < 8 ==> DecimalOrWild(a[k]))
    {
      RenderedAt(SelectData(a), k);
      SelectNibble(a, k);
      HexAt(a, k);
      CharRoundTrip(a[k]);
    }
  }

  // ---------------------------------------------------------------- character by character

  const Digits := "0123456789ABCDEF"
  const LowerDigits := "0123456789abcdef"

  lemma {:induction false} HexExactly(s: string)
    ensures AllHex(s) <==> forall k :: 0 <= k < |s| ==> s[k] in Digits || s[k] in LowerDigits
  {
    if s != [] {
      assert s[0] in Digits || s[0] in LowerDigits <==> IsHexDigit(s[0]) by {
        HexDigitExactly(s[0]);
      }
      assert forall k :: 0 < k < |s| ==> s[k] == s[1..][k - 1];
      HexExactly(s[1..]);
    }
  }

  lemma HexDigitExactly(c: char)
    ensures IsHexDigit(c) <==> c in Digits || c in LowerDigits
  {
    if IsHexDigit(c) {
      if c <= '9' {
        assert Digits[c as int - 48] == c;
      } else if c <= 'F' {
        assert Digits[c as int - 55] == c;
      } else {
        assert LowerDigits[c as int - 87] == c;
      }
    }
  }

  /** Sixteen hexadecimal digits in either case, and nothing else. */
  lemma IsAddressExactly(s: string)
    ensures IsSecondaryAddress(s) <==> |s| == 16 && forall k :: 0 <= k < 16 ==> s[k] in Digits || s[k] in LowerDigits
  {
    HexExactly(s);
  }

  lemma ValueOfDigit(c: char)
    requires IsHexDigit(c)
    ensures Digits[HexValue(c)] == c || LowerDigits[HexValue(c)] == c
  {
  }

  lemma CharOfDigit(n: nat)
    requires n < 16
    ensures HexChar(n) == Digits[n]
  {
  }

  /** How an ID character is sent: F in either case as the wildcard nibble, a decimal digit as itself, and
      another letter as the digit 1 to 5. */
  lemma IdDigit(c: char)
    requires IsHexDigit(c)
    ensures IsWild(c) <==> c == 'F' || c == 'f'
    ensures c in {'F', 'f'} ==> IdNibble(c) == 15
    ensures c <= '9' ==> Digits[IdNibble(c)] == c
    ensures 'A' <= c <= 'E' || 'a' <= c <= 'e' ==>
              1 <= IdNibble(c) <= 5 && (c == Digits[9 + IdNibble(c)] || c == LowerDigits[9 + IdNibble(c)])
  {
  }

  /** The bytes of a select: two characters make a byte, the first one its high nibble; the bytes of the ID
      go last to first, the others in order. */
  lemma SelectBytes(a: string, j: nat)
    requires IsSecondaryAddress(a) && j < 8
    ensures IsHexDigit(a[2 * j]) && IsHexDigit(a[2 * j + 1])
    ensures j < 4 ==> SelectData(a)[3 - j] == 16 * IdNibble(a[2 * j]) + IdNibble(a[2 * j + 1])
    ensures j >= 4 ==> SelectData(a)[j] == 16 * HexValue(a[2 * j]) + HexValue(a[2 * j + 1])
  {
    HexAt(a, 2 * j);
    HexAt(a, 2 * j + 1);
  }

  lemma NibblesOf(d: seq<byte>, j: nat, b: byte)
    requires |d| >= 8 && j < 8 && b == d[if j < 4 then 3 - j else j]
    ensures Nibble(d, 2 * j) == b / 16 && Nibble(d, 2 * j + 1) == b % 16
  {
    assert InOrder(d)[j] == b;
  }

  lemma RenderedDigit(d: seq<byte>, k: nat, n: nat)
    requires |d| >= 8 && k < ADDRESS_LENGTH && n == Nibble(d, k)
    ensures |RenderBytes(d)| == 16 && RenderBytes(d)[k] == Digits[n]
  {
    RenderedAt(d, k);
    CharOfDigit(n);
  }

  /** The characters of a rendered address: of the ID bytes from the last to the first, then of the others. */
  lemma RenderedCharacters(d: seq<byte>, j: nat, b: byte)
    requires |d| >= 8 && j < 8 && b == d[if j < 4 then 3 - j else j]
    ensures |RenderBytes(d)| == 16
    ensures RenderBytes(d)[2 * j] == Digits[b / 16] && RenderBytes(d)[2 * j + 1] == Digits[b % 16]
  {
    NibblesOf(d, j, b);
    RenderedDigit(d, 2 * j, b / 16);
    RenderedDigit(d, 2 * j + 1, b % 16);
  }

  // ---------------------------------------------------------------- frames

  /** mbus_frame_select_secondary_pack. */
  method SelectPack(frame: Frame, address: string) returns (code: int)
    requires frame.Valid()
    modifies frame, frame.data
    ensures frame.Valid() && frame.next == old(frame.next)
    ensures !IsSecondaryAddress(address) ==> code == -1 && frame.View() == old(frame.View())
    ensures IsSecondaryAddress(address) ==>
              && code == 0
              && frame.View() == old(frame.View()).(control := SELECT_CONTROL, address := NETWORK_LAYER,
                                                    controlInformation := SELECT_SLAVE, data := SelectData(address))
  {
    if !IsSecondaryAddress(address) {
      return -1;
    }
    frame.control, frame.address, frame.controlInformation := SELECT_CONTROL, NETWORK_LAYER, SELECT_SLAVE;
    frame.dataSize := 8;
    PackAddress(frame, address);
    code := 0;
  }

  /** Medium, version and manufacturer, then the ID. */
  method PackAddress(frame: Frame, address: string)
    requires frame.Valid() && IsSecondaryAddress(address)
    modifies frame.data
    ensures frame.data[..8] == SelectData(address)
  {
    var medium, version := CharPair(address, 14), CharPair(address, 12);
    var maker0, maker1 := CharPair(address, 8), CharPair(address, 10);
    frame.data[7], frame.data[6], frame.data[4], frame.data[5] := medium, version, maker0, maker1;
    PackId(frame, address);
    assert frame.data[..8] == frame.data[..4] + [maker0, maker1, version, medium];
  }

  /** ID byte n when the first i characters are in. */
  function PartialId(a: string, i: nat, n: nat): byte
    requires IsSecondaryAddress(a) && n < 4
  {
    if i <= 6 - 2 * n then 0
    else if i == 7 - 2 * n then Pair(CharNibble(a, 6 - 2 * n), 0)
    else CharPair(a, 6 - 2 * n)
  }

  /** The loop over the ID characters, from the highest nibble of byte 3 down. */
  method PackId(frame: Frame, address: string)
    requires frame.Valid() && IsSecondaryAddress(address)
    modifies frame.data
    ensures forall k :: 4 <= k < frame.data.Length ==> frame.data[k] == old(frame.data[k])
    ensures frame.data[..4] == SelectData(address)[..4]
  {
    var data := frame.data;
    data[0], data[1], data[2], data[3] := 0, 0, 0, 0;
    var i, j, k := 0, 3, 1;
    while i < 8
      invariant 0 <= i <= 8 && j == 3 - i / 2 && k == 1 - i % 2
      invariant forall n :: 4 <= n < data.Length ==> data[n] == old(data[n])
      invariant forall n :: 0 <= n < 4 ==> data[n] == PartialId(address, i, n)
      modifies data
    {
      var nibble := CharNibble(address, i);
      data[j] := data[j] + if k == 1 then 16 * nibble else nibble;
      k := k - 1;
      if k < 0 {
        k := 1;
        j := j - 1;
      }
      i := i + 1;
    }
  }

  /** What mbus_frame_get_secondary_address answers. */
  function AddressOf(control: byte, ci: byte, mem: seq<byte>, size: nat): Option<string>
    requires size + 2 <= |mem|
  {
    if ci != RESP_VARIABLE then None
    else
      match DataParse(control, ci, mem, size)
      case Some(VariableData(h, _, _)) =>
        if |h.id| == 4 && |h.manufacturer| == 2 then Some(Render(h.id, h.manufacturer, h.version, h.medium)) else None
      case _ => None
  }

  /** A variable data reply is rendered from its first eight data bytes. */
  lemma AddressOfVariable(control: byte, mem: seq<byte>, size: nat)
    requires size + 2 <= |mem|
    ensures AddressOf(control, RESP_VARIABLE, mem, size) ==
              if DataParse(control, RESP_VARIABLE, mem, size).Some? then Some(RenderBytes(mem)) else None
  {
  }

  /** mbus_frame_get_secondary_address. */
  method GetSecondaryAddress(frame: Frame) returns (address: Option<string>)
    requires frame.Valid()
    ensures address == AddressOf(frame.control, frame.controlInformation, frame.data[..], frame.dataSize)
  {
    if frame.controlInformation != RESP_VARIABLE {
      return None;
    }
    AddressOfVariable(frame.control, frame.data[..], frame.dataSize);
    var ok, data := ParseFrameData(frame);
    if !ok {
      return None;
    }
    var h := data.variable.header;
    address := Some(Render(h.id, h.manufacturer, h.version, h.medium));
  }
}
