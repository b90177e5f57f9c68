/** Positional numbers, and the integer, BCD and DIF/DIFE codecs as readings of them. */
module Positional {

  function Pow(base: nat, n: nat): int {
    if n == 0 then 1 else base * Pow(base, n - 1)
  }

  /** Value of digits, least significant first. */
  function Value(base: nat, ds: seq<nat>): int {
    if ds == [] then 0 else ds[0] + base * Value(base, ds[1..])
  }

  predicate Below(bound: nat, ds: seq<nat>) {
    ds == [] || (ds[0] < bound && Below(bound, ds[1..]))
  }

  lemma Distribute(a: int, x: int, y: int, d: int)
    ensures a * (x + y * d) == a * x + (a * y) * d
  {
  }

  lemma {:induction false} ValueAppend(base: nat, ds: seq<nat>, d: nat)
    ensures Value(base, ds + [d]) == Value(base, ds) + Pow(base, |ds|) * d
  {
    if ds == [] {
      assert ds + [d] == [d];
    } else {
      assert (ds + [d])[1..] == ds[1..] + [d];
      ValueAppend(base, ds[1..], d);
      Distribute(base, Value(base, ds[1..]), Pow(base, |ds| - 1), d);
    }
  }
}

/** The two's complement integer codec. */
module IntegerCodec {
  import opened Bytes

  /** Two's complement value of little-endian bytes. */
  function Signed(s: seq<byte>): int
    requires s != []
  {
    if |s| == 1 then if s[0] < 0x80 then s[0] else s[0] as int - 0x100
    else s[0] + 0x100 * Signed(s[1..])
  }

  /** 2^(8n-1). */
  function HalfRange(n: nat): int
    requires n > 0
  {
    if n == 1 then 0x80 else 0x100 * HalfRange(n - 1)
  }

  /** The n low bytes of a value, lowest first. */
  function LowBytes(v: int, n: nat): (s: seq<byte>)
    ensures |s| == n
    decreases n
  {
    if n == 0 then [] else [LowByte(v)] + LowBytes(v / 0x100, n - 1)
  }

  /** Decoding undoes encoding on the whole signed range of n bytes. */
  lemma {:induction false} DecodeUndoesEncode(v: int, n: nat)
    requires n > 0 && -HalfRange(n) <= v < HalfRange(n)
    ensures Signed(LowBytes(v, n)) == v
    decreases n
  {
    if n > 1 {
      DecodeUndoesEncode(v / 0x100, n - 1);
      assert LowBytes(v, n)[1..] == LowBytes(v / 0x100, n - 1);
    } else {
      assert LowBytes(v, 1) == [LowByte(v)];
    }
  }

  /** Encoding undoes decoding: every byte string is the encoding of its value. */
  lemma {:induction false} EncodeUndoesDecode(s: seq<byte>)
    requires s != []
    ensures LowBytes(Signed(s), |s|) == s && -HalfRange(|s|) <= Signed(s) < HalfRange(|s|)
  {
    if |s| > 1 {
      EncodeUndoesDecode(s[1..]);
      var rest := Signed(s[1..]);
      assert Signed(s) == s[0] + 0x100 * rest;
      assert Signed(s) / 0x100 == rest && LowByte(Signed(s)) == s[0];
    } else {
      assert LowByte(Signed(s)) == s[0];
      assert LowBytes(Signed(s), 1) == [s[0]];
    }
  }

  /** The byte the decode loop adds: complemented when the number is negative. */
  function Taken(b: byte, negative: bool): nat {
    if negative then 0xFF - b else b
  }

  /** Accumulator of the decode loop over the high bytes `s`. */
  function Accumulated(s: seq<byte>, negative: bool): int {
    if s == [] then 0 else Taken(s[0], negative) + 0x100 * Accumulated(s[1..], negative)
  }

  lemma {:induction false} AccumulatedIsSigned(s: seq<byte>)
    requires s != []
    ensures
      var negative := s[|s| - 1] >= 0x80;
      && Signed(s) == (if negative then -Accumulated(s, true) - 1 else Accumulated(s, false))
      && 0 <= Accumulated(s, negative) < HalfRange(|s|)
  {
    if |s| > 1 {
      assert s[1..][|s| - 2] == s[|s| - 1];
      AccumulatedIsSigned(s[1..]);
    } else {
      assert s[1..] == [];
    }
  }

  lemma HalfRangeGrows(m: nat, n: nat)
    requires 0 < m <= n
    ensures HalfRange(m) <= HalfRange(n)
    decreases n
  {
    if m < n {
      HalfRangeGrows(m, n - 1);
    }
  }

  /** After every step the accumulator of the decode loop over n bytes is in [0, 2^(8n-1)), so a type
      of 8n bits never overflows, and neither does the final negation and difference. */
  lemma DecodeStaysInRange(data: seq<byte>, i: nat)
    requires data != [] && i <= |data|
    ensures 0 <= Accumulated(data[i..], data[|data| - 1] >= 0x80) < HalfRange(|data|)
    ensures -HalfRange(|data|) <= Signed(data) < HalfRange(|data|)
  {
    EncodeUndoesDecode(data);
    HalfRangeGrows(1, |data|);
    if i < |data| {
      var s := data[i..];
      assert s[|s| - 1] == data[|data| - 1];
      AccumulatedIsSigned(s);
      HalfRangeGrows(|s|, |data|);
    }
  }

  /** mbus_data_int_decode; the long and long long versions are this same loop on wider types. */
  method Decode(data: seq<byte>) returns (code: int, value: int)
    ensures if data == [] then code == -1 && value == 0 else code == 0 && value == Signed(data)
  {
    value := 0;
    if data == [] {
      return -1, value;
    }
    var negative := data[|data| - 1] >= 0x80;
    var i := |data|;
    DecodeStaysInRange(data, i);
    while i > 0
      invariant 0 <= i <= |data|
      invariant value == Accumulated(data[i..], negative)
      invariant 0 <= value < HalfRange(|data|)
    {
      assert data[i - 1..][1..] == data[i..];
      DecodeStaysInRange(data, i - 1);
      value := value * 0x100 + Taken(data[i - 1], negative);
      i := i - 1;
    }
    assert data[0..] == data;
    AccumulatedIsSigned(data);
    if negative {
      value := value * -1 - 1;
    }
    code := 0;
  }

  /** An arithmetic right shift by 8i bits. */
  function ShiftedRight(v: int, i: nat): int
    requires i < 4
  {
    if i == 0 then v
    else if i == 1 then v / 0x100
    else if i == 2 then v / 0x1_0000
    else v / 0x100_0000
  }

  lemma LowBytesAt(v: int, n: nat, i: nat)
    requires i < n <= 4
    ensures LowBytes(v, n)[i] == LowByte(ShiftedRight(v, i))
    decreases i
  {
    if i > 0 {
      LowBytesAt(v / 0x100, n - 1, i - 1);
      assert ShiftedRight(v / 0x100, i - 1) == ShiftedRight(v, i);
    }
  }

  /** mbus_data_int_encode: byte i is the value shifted right by 8i bits. An int has four bytes. */
  method Encode(data: array<byte>, value: int)
    requires data.Length <= 4 && -0x8000_0000 <= value < 0x8000_0000
    modifies data
    ensures data[..] == LowBytes(value, data.Length)
  {
    var i := 0;
    while i < data.Length
      invariant 0 <= i <= data.Length
      invariant data[..i] == LowBytes(value, data.Length)[..i]
    {
      LowBytesAt(value, data.Length, i);
      data[i] := LowByte(ShiftedRight(value, i));
      i := i + 1;
    }
  }
}

/** The BCD codec. */
module BcdCodec {
  import opened Bytes
  import opened Positional

  function High(b: byte): nat {
    b / 16
  }

  function Low(b: byte): nat {
    b % 16
  }

  /** A high nibble above 9 counts as zero; a low one counts in full. */
  function ByteValue(b: byte): nat {
    10 * (if High(b) < 10 then High(b) else 0) + Low(b)
  }

  function Magnitude(s: seq<byte>): int {
    if s == [] then 0 else ByteValue(s[0]) + 100 * Magnitude(s[1..])
  }

  /** Value of BCD bytes, lowest first: F in the highest digit means negative. */
  function BcdValue(s: seq<byte>): int
    requires s != []
  {
    if High(s[|s| - 1]) == 15 then -Magnitude(s) else Magnitude(s)
  }

  /** mbus_data_bcd_decode. */
  method Decode(data: seq<byte>) returns (val: int)
    requires data != []
    ensures val == BcdValue(data)
  {
    val := 0;
    var i := |data|;
    while i > 0
      invariant 0 <= i <= |data| && val == Magnitude(data[i..])
    {
      assert data[i - 1..][1..] == data[i..];
      val := val * 10;
      if High(data[i - 1]) < 10 {
        val := val + High(data[i - 1]);
      }
      val := val * 10 + Low(data[i - 1]);
      i := i - 1;
    }
    assert data[0..] == data;
    if High(data[|data| - 1]) == 15 {
      val := val * -1;
    }
  }

  /** All digits, lowest first. */
  function Nibbles(s: seq<byte>): (ds: seq<nat>)
    ensures |ds| == 2 * |s|
  {
    if s == [] then [] else [Low(s[0]), High(s[0])] + Nibbles(s[1..])
  }

  /** On decimal digits the magnitude is their positional value. */
  lemma {:induction false} DecimalMagnitude(s: seq<byte>)
    requires Below(10, Nibbles(s))
    ensures Magnitude(s) == Value(10, Nibbles(s))
  {
    if s != [] {
      var ds := Nibbles(s);
      assert ds[1..][1..] == Nibbles(s[1..]) && ds[1..][0] == High(s[0]) && ds[0] == Low(s[0]);
      DecimalMagnitude(s[1..]);
    }
  }

  lemma {:induction false} NibblesAppend(s: seq<byte>, b: byte)
    ensures Nibbles(s + [b]) == Nibbles(s) + [Low(b), High(b)]
  {
    if s == [] {
      assert s + [b] == [b];
    } else {
      assert (s + [b])[1..] == s[1..] + [b];
      NibblesAppend(s[1..], b);
    }
  }

  lemma {:induction false} MagnitudeAppend(s: seq<byte>, b: byte)
    ensures Magnitude(s + [b]) == Magnitude(s) + Pow(100, |s|) * ByteValue(b)
  {
    if s == [] {
      assert s + [b] == [b];
    } else {
      assert (s + [b])[1..] == s[1..] + [b];
      MagnitudeAppend(s[1..], b);
      Distribute(100, Magnitude(s[1..]), Pow(100, |s| - 1), ByteValue(b));
    }
  }

  /** Byte by byte: a high nibble above 9 counts as zero, a low one in full, and a high nibble F in the
      last byte makes the value negative. */
  lemma BcdByByte(s: seq<byte>)
    requires s != []
    ensures Magnitude(s) == (if s[0] / 0x10 <= 9 then 10 * (s[0] / 0x10) else 0) + s[0] % 0x10 + 100 * Magnitude(s[1..])
    ensures Magnitude([]) == 0
    ensures BcdValue(s) == if s[|s| - 1] >= 0xF0 then -Magnitude(s) else Magnitude(s)
  {
  }

  /** Decimal digits decode to their positional value; with F as the highest digit the other digits
      decode to their negated value. */
  lemma BcdMeaning(s: seq<byte>, b: byte)
    requires Below(10, Nibbles(s)) && Low(b) < 10
    ensures High(b) < 10 ==> BcdValue(s + [b]) == Value(10, Nibbles(s + [b]))
    ensures High(b) == 15 ==> BcdValue(s + [b]) == -Value(10, Nibbles(s) + [Low(b)])
  {
    DecimalMagnitude(s);
    MagnitudeAppend(s, b);
    NibblesAppend(s, b);
    ValueAppend(10, Nibbles(s), Low(b));
    ValueAppend(10, Nibbles(s) + [Low(b)], High(b));
    assert Nibbles(s) + [Low(b)] + [High(b)] == Nibbles(s + [b]);
    TwoPlaces(|s|);
    if High(b) < 10 {
      Distribute(Pow(100, |s|), Low(b), High(b), 10);
    }
  }

  lemma {:induction false} TwoPlaces(n: nat)
    ensures Pow(10, 2 * n) == Pow(100, n) && Pow(10, 2 * n + 1) == 10 * Pow(100, n)
  {
    if n > 0 {
      TwoPlaces(n - 1);
      assert Pow(10, 2 * n) == 10 * (10 * Pow(10, 2 * n - 2));
    }
  }

  lemma {:induction false} MagnitudeIsBounded(s: seq<byte>)
    ensures 0 <= Magnitude(s) && 99 * Magnitude(s) <= 105 * (Pow(100, |s|) - 1)
  {
    if s != [] {
      MagnitudeIsBounded(s[1..]);
    }
  }

  /** Whatever the nibbles, n bytes decode to a value of at most 105 (100^n - 1) / 99 either way. */
  lemma BcdValueIsBounded(s: seq<byte>)
    requires s != []
    ensures -(105 * (Pow(100, |s|) - 1)) <= 99 * BcdValue(s) <= 105 * (Pow(100, |s|) - 1)
  {
    MagnitudeIsBounded(s);
  }

  /** The bytes that the encode loop computes for a magnitude, lowest first. */
  function BcdBytes(v: nat, n: nat): (s: seq<byte>)
    ensures |s| == n
    decreases n
  {
    if n == 0 then [] else [v / 10 % 10 * 16 + v % 10] + BcdBytes(v / 10 / 10, n - 1)
  }

  /** What mbus_data_bcd_encode leaves, read lowest byte first: the sign goes into that lowest byte. */
  function Encoded(value: int, n: nat): (s: seq<byte>)
    requires n > 0
    ensures |s| == n
  {
    var s := BcdBytes(if value < 0 then -value else value, n);
    if value < 0 then [0xF0 + Low(s[0])] + s[1..] else s
  }

  /** mbus_data_bcd_encode: the lowest byte comes last. */
  method Encode(data: array<byte>, value: int) returns (code: int)
    modifies data
    ensures code == if data.Length == 0 then -1 else 0
    ensures data.Length > 0 ==>
              forall k :: 0 <= k < data.Length ==> data[data.Length - 1 - k] == Encoded(value, data.Length)[k]
  {
    if data.Length == 0 {
      return -1;
    }
    var n := data.Length;
    var v2 := if value < 0 then -value else value;
    ghost var all := BcdBytes(v2, n);
    var i := 0;
    while i < n
      invariant 0 <= i <= n && v2 >= 0
      invariant all[i..] == BcdBytes(v2, n - i)
      invariant forall k :: 0 <= k < i ==> data[n - 1 - k] == all[k]
    {
      var v0 := v2;
      var v1 := v0 / 10;
      v2 := v1 / 10;
      var x1, x2 := v0 - v1 * 10, v1 - v2 * 10;
      assert all[i] == all[i..][0] && all[i + 1..] == all[i..][1..];
      data[n - 1 - i] := x2 * 16 + x1;
      i := i + 1;
    }
    if value < 0 {
      data[n - 1] := 0xF0 + Low(data[n - 1]);
    }
    code := 0;
  }

  lemma Shift(v: nat, w: nat, p: int)
    requires w == v / 10 / 10
    ensures w < p <==> v < 100 * p
  {
  }

  /** The encoded bytes are decimal, so that they stay below 100^n, and they have the value exactly
      if it does as well. */
  lemma {:induction false} BcdBytesValue(v: nat, n: nat)
    ensures 0 <= Magnitude(BcdBytes(v, n)) < Pow(100, n)
    ensures Magnitude(BcdBytes(v, n)) == v <==> v < Pow(100, n)
    ensures n > 0 ==> High(BcdBytes(v, n)[n - 1]) < 10
    decreases n
  {
    if n > 0 {
      BcdBytesValue(v / 10 / 10, n - 1);
      Shift(v, v / 10 / 10, Pow(100, n - 1));
      assert BcdBytes(v, n)[1..] == BcdBytes(v / 10 / 10, n - 1);
      var b := BcdBytes(v, n)[0];
      assert High(b) == v / 10 % 10 && Low(b) == v % 10;
      if n > 1 {
        assert BcdBytes(v, n)[n - 1] == BcdBytes(v / 10 / 10, n - 1)[n - 2];
      }
    }
  }

  lemma SignByte(b: byte)
    ensures 0xF0 + Low(b) < 256 && High(0xF0 + Low(b)) == 15 && Low(0xF0 + Low(b)) == Low(b)
  {
  }

  /** With the sign in the lowest byte, several bytes do not decode to a negative value, and a single
      one keeps its lowest digit only. */
  lemma NegativeValue(v: int, n: nat)
    requires n > 0 && v > 0
    ensures n > 1 ==> BcdValue(Encoded(-v, n)) >= 0
    ensures n == 1 ==> BcdValue(Encoded(-v, n)) == -(v % 10)
  {
    var e, rest := Encoded(-v, n), BcdBytes(v / 10 / 10, n - 1);
    SignByte(BcdBytes(v, n)[0]);
    assert e[1..] == rest;
    assert Low(e[0]) == v % 10 && High(e[0]) == 15;
    BcdBytesValue(v / 10 / 10, n - 1);
    MagnitudeIsBounded(e);
    if n > 1 {
      assert e[n - 1] == rest[n - 2];
    }
  }

  /** Decoding undoes encoding exactly for the values that fit into the bytes without a sign, and for
      a single negative digit in a single byte: encode drops what does not fit, and puts the sign into
      the lowest byte while decode looks for it in the highest. */
  lemma RoundTripExactly(value: int, n: nat)
    requires n > 0
    ensures BcdValue(Encoded(value, n)) == value <==> 0 <= value < Pow(100, n) || (n == 1 && -10 < value < 0)
  {
    if value < 0 {
      NegativeValue(-value, n);
    } else {
      BcdBytesValue(value, n);
    }
  }

  /** One instance: -12 in two bytes decodes to 2, and 100 in one byte to 0. */
  lemma RoundTripFails()
    ensures BcdValue(Encoded(-12, 2)) != -12 && BcdValue(Encoded(100, 1)) != 100
  {
    RoundTripExactly(-12, 2);
    RoundTripExactly(100, 1);
    assert Pow(100, 1) == 100 * Pow(100, 0);
  }
}

/** Storage number, tariff and device from DIF and DIFE. */
module RecordFields {
  import opened Bytes
  import opened Positional

  function StorageDigits(dife: seq<byte>): (ds: seq<nat>)
    ensures |ds| == |dife|
  {
    if dife == [] then [] else [dife[0] % 16] + StorageDigits(dife[1..])
  }

  function TariffDigits(dife: seq<byte>): (ds: seq<nat>)
    ensures |ds| == |dife|
  {
    if dife == [] then [] else [dife[0] / 16 % 4] + TariffDigits(dife[1..])
  }

  function DeviceDigits(dife: seq<byte>): (ds: seq<nat>)
    ensures |ds| == |dife|
  {
    if dife == [] then [] else [dife[0] / 64 % 2] + DeviceDigits(dife[1..])
  }

  /** Bit 6 of the DIF. */
  function StorageBit(dif: byte): int {
    if 64 <= dif < 128 || 192 <= dif then 1 else 0
  }

  function StorageNumber(dif: byte, dife: seq<byte>): int {
    StorageBit(dif) + 2 * Value(16, StorageDigits(dife))
  }

  function Tariff(dife: seq<byte>): int {
    Value(4, TariffDigits(dife))
  }

  function Device(dife: seq<byte>): int {
    Value(2, DeviceDigits(dife))
  }

  lemma {:induction false} DigitsAppend(dife: seq<byte>, x: byte)
    ensures StorageDigits(dife + [x]) == StorageDigits(dife) + [x % 16]
    ensures TariffDigits(dife + [x]) == TariffDigits(dife) + [x / 16 % 4]
    ensures DeviceDigits(dife + [x]) == DeviceDigits(dife) + [x / 64 % 2]
  {
    if dife == [] {
      assert dife + [x] == [x];
    } else {
      assert (dife + [x])[1..] == dife[1..] + [x];
      DigitsAppend(dife[1..], x);
    }
  }

  lemma StorageAppend(dif: byte, dife: seq<byte>, x: byte)
    ensures StorageNumber(dif, dife + [x]) == StorageNumber(dif, dife) + (x % 16) as int * (2 * Pow(16, |dife|))
  {
    DigitsAppend(dife, x);
    ValueAppend(16, StorageDigits(dife), x % 16);
    Doubled(Value(16, StorageDigits(dife)), Pow(16, |dife|), x % 16);
  }

  lemma Doubled(v: int, p: int, d: int)
    ensures 2 * (v + p * d) == 2 * v + d * (2 * p)
  {
  }

  /** mbus_data_record_storage_number. The new bits lie above the result, so or-ing them in adds. With
      more DIFE, or more bits in the eighth, the shift leaves the width of an int. */
  method ReadStorageNumber(dif: byte, dife: seq<byte>) returns (result: int)
    requires |dife| <= 7 || (|dife| == 8 && dife[7] % 16 < 4)
    ensures result == StorageNumber(dif, dife) && result % 2 == dif / 64 % 2
  {
    result := StorageBit(dif);
    var i, weight: int := 0, 2;
    while i < |dife|
      invariant 0 <= i <= |dife| && weight == 2 * Pow(16, i)
      invariant result == StorageNumber(dif, dife[..i])
      invariant 0 <= result < weight
    {
      assert dife[..i + 1] == dife[..i] + [dife[i]];
      StorageAppend(dif, dife[..i], dife[i]);
      FieldsDetermineBits(dif, dife[..i + 1]);
      result := result + (dife[i] % 16) as int * weight;
      i := i + 1;
      weight := weight * 16;
    }
    assert dife[..i] == dife;
    FieldsDetermineBits(dif, dife);
  }

  /** mbus_data_record_tariff. */
  method ReadTariff(dife: seq<byte>) returns (result: int)
    ensures result == if dife == [] then -1 else Tariff(dife)
  {
    if dife == [] {
      return -1;
    }
    result := 0;
    var i, weight: int := 0, 1;
    while i < |dife|
      invariant 0 <= i <= |dife| && weight == Pow(4, i)
      invariant result == Tariff(dife[..i]) < weight
    {
      assert dife[..i + 1] == dife[..i] + [dife[i]];
      ValuesDetermineBits(dife[..i + 1]);
      DigitsAppend(dife[..i], dife[i]);
      ValueAppend(4, TariffDigits(dife[..i]), dife[i] / 16 % 4);
      result := result + (dife[i] / 16 % 4) as int * weight;
      i := i + 1;
      weight := weight * 4;
    }
    assert dife[..i] == dife;
  }

  /** mbus_data_record_device. */
  method ReadDevice(dife: seq<byte>) returns (result: int)
    ensures result == if dife == [] then -1 else Device(dife)
  {
    if dife == [] {
      return -1;
    }
    result := 0;
    var i, weight: int := 0, 1;
    while i < |dife|
      invariant 0 <= i <= |dife| && weight == Pow(2, i)
      invariant result == Device(dife[..i]) < weight
    {
      assert dife[..i + 1] == dife[..i] + [dife[i]];
      ValuesDetermineBits(dife[..i + 1]);
      DigitsAppend(dife[..i], dife[i]);
      ValueAppend(2, DeviceDigits(dife[..i]), dife[i] / 64 % 2);
      result := result + (dife[i] / 64 % 2) as int * weight;
      i := i + 1;
      weight := weight * 2;
    }
    assert dife[..i] == dife;
  }

  /** The DIFE bytes without their extension bits. */
  function Masked(dife: seq<byte>): seq<byte> {
    if dife == [] then [] else [dife[0] % 128] + Masked(dife[1..])
  }

  /** DIFE bytes from the digits of the three numbers. */
  function Spread(storage: int, tariff: int, device: int, n: nat): seq<byte>
    decreases n
  {
    if n == 0 then []
    else [storage % 16 + 16 * (tariff % 4) + 64 * (device % 2)] + Spread(storage / 16, tariff / 4, device / 2, n - 1)
  }

  lemma BitsOfByte(x: byte)
    ensures x % 128 == x % 16 + 16 * (x / 16 % 4) + 64 * (x / 64 % 2)
  {
    assert x / 64 == x / 16 / 4 && x / 128 == x / 64 / 2;
  }

  lemma SpreadStep(x: byte, storage: int, tariff: int, device: int, n: nat)
    ensures Spread(x % 16 + 16 * storage, x / 16 % 4 + 4 * tariff, x / 64 % 2 + 2 * device, n + 1) ==
              [x % 128] + Spread(storage, tariff, device, n)
  {
    BitsOfByte(x);
    Digit(16, x % 16, storage);
    Digit(4, x / 16 % 4, tariff);
    Digit(2, x / 64 % 2, device);
  }

  /** The lowest digit and the rest of a number. */
  lemma Digit(base: nat, d: nat, rest: int)
    requires base in {2, 4, 16} && d < base
    ensures (d + base * rest) % base == d && (d + base * rest) / base == rest
  {
  }

  lemma ByteOfBits(a: nat, b: nat, c: nat)
    requires a < 16 && b < 4 && c < 2
    ensures
      var x := a + 16 * b + 64 * c;
      x % 16 == a && x / 16 % 4 == b && x / 64 % 2 == c && x % 128 == x
  {
  }

  lemma {:induction false} ValuesDetermineBits(dife: seq<byte>)
    ensures 0 <= Value(16, StorageDigits(dife)) < Pow(16, |dife|)
    ensures 0 <= Tariff(dife) < Pow(4, |dife|) && 0 <= Device(dife) < Pow(2, |dife|)
    ensures Spread(Value(16, StorageDigits(dife)), Tariff(dife), Device(dife), |dife|) == Masked(dife)
  {
    if dife != [] {
      var rest := dife[1..];
      ValuesDetermineBits(rest);
      SpreadStep(dife[0], Value(16, StorageDigits(rest)), Tariff(rest), Device(rest), |rest|);
      assert StorageDigits(dife)[1..] == StorageDigits(rest);
      assert TariffDigits(dife)[1..] == TariffDigits(rest) && DeviceDigits(dife)[1..] == DeviceDigits(rest);
    }
  }

  lemma StorageBitIsBitSix(dif: byte)
    ensures StorageBit(dif) == dif / 64 % 2
  {
  }

  lemma Halve(s: int, bit: int, v: int)
    requires 0 <= bit <= 1 && s == bit + 2 * v
    ensures s / 2 == v && s % 2 == bit
  {
  }

  /** The three numbers determine the storage bit and every DIFE bit but the extension bits. */
  lemma FieldsDetermineBits(dif: byte, dife: seq<byte>)
    ensures 0 <= StorageNumber(dif, dife) < 2 * Pow(16, |dife|)
    ensures 0 <= Tariff(dife) < Pow(4, |dife|) && 0 <= Device(dife) < Pow(2, |dife|)
    ensures StorageNumber(dif, dife) % 2 == StorageBit(dif) == dif / 64 % 2
    ensures Spread(StorageNumber(dif, dife) / 2, Tariff(dife), Device(dife), |dife|) == Masked(dife)
  {
    ValuesDetermineBits(dife);
    Halve(StorageNumber(dif, dife), StorageBit(dif), Value(16, StorageDigits(dife)));
    StorageBitIsBitSix(dif);
  }

  /** Byte by byte: bit 6 of the DIF is the lowest storage bit; each DIFE adds four storage bits, two
      tariff bits and one device bit above those of the DIFE before it. */
  lemma FieldsByByte(dif: byte, dife: seq<byte>)
    ensures StorageNumber(dif, []) == dif / 0x40 % 2 && Tariff([]) == 0 && Device([]) == 0
    ensures dife != [] ==>
              && StorageNumber(dif, dife) ==
                   dif / 0x40 % 2 + 2 * (dife[0] % 0x10) + 0x10 * (StorageNumber(dif, dife[1..]) - dif / 0x40 % 2)
              && Tariff(dife) == dife[0] / 0x10 % 4 + 4 * Tariff(dife[1..])
              && Device(dife) == dife[0] / 0x40 % 2 + 2 * Device(dife[1..])
  {
    StorageBitIsBitSix(dif);
    if dife != [] {
      assert StorageDigits(dife)[1..] == StorageDigits(dife[1..]);
      assert TariffDigits(dife)[1..] == TariffDigits(dife[1..]) && DeviceDigits(dife)[1..] == DeviceDigits(dife[1..]);
    }
  }

  /** And every storage bit with every three numbers in range is the reading of some DIF and DIFE. */
  lemma {:induction false} BitsForFields(dif: byte, storage: int, tariff: int, device: int, n: nat)
    requires 0 <= storage < Pow(16, n) && 0 <= tariff < Pow(4, n) && 0 <= device < Pow(2, n)
    ensures
      var dife := Spread(storage, tariff, device, n);
      && |dife| == n && Masked(dife) == dife
      && StorageNumber(dif, dife) == dif / 64 % 2 + 2 * storage
      && Tariff(dife) == tariff && Device(dife) == device
    decreases n
  {
    if n > 0 {
      BitsForFields(dif, storage / 16, tariff / 4, device / 2, n - 1);
      ByteOfBits(storage % 16, tariff % 4, device % 2);
      assert Spread(storage, tariff, device, n)[1..] == Spread(storage / 16, tariff / 4, device / 2, n - 1);
    }
  }
}
