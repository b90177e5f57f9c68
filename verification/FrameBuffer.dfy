/** The mutable frame structure, and the parser and packer that work on it in place. */
module FrameBuffer {
  import opened Bytes
  import opened Telegram

  lemma SplitInFour(s: seq<byte>, a: nat, b: nat, c: nat)
    requires a <= b <= c <= |s|
    ensures s == s[..a] + s[a..b] + s[b..c] + s[c..]
  {
  }

  /** The fields of a frame and its whole data memory, of which the first bytes are the data. */
  datatype Image = Image(fields: Fields, mem: seq<byte>)

  predicate GoodImage(im: Image) {
    && |im.mem| == MAX_DATA + 2 && |im.fields.data| <= MAX_DATA
    && im.mem[..|im.fields.data|] == im.fields.data
  }

  /** Parsing writes the data to the front of the memory and leaves the bytes behind it alone. */
  function AfterParse(im: Image, d: seq<byte>): Image {
    var g := Parse(im.fields, d).fields;
    Image(g, g.data + if |g.data| <= |im.mem| then im.mem[|g.data|..] else [])
  }

  lemma ParsedDataFits(f: Fields, d: seq<byte>)
    requires |f.data| <= MAX_DATA
    ensures |Parse(f, d).fields.data| <= MAX_DATA
  {
  }

  lemma AfterParseIsGood(im: Image, d: seq<byte>)
    requires GoodImage(im)
    ensures GoodImage(AfterParse(im, d))
    ensures Parse(im.fields, d).fields.data == im.fields.data ==> AfterParse(im, d).mem == im.mem
  {
    ParsedDataFits(im.fields, d);
  }

  /** Truncating after every addition is truncating once. */
  lemma Carry(a: nat, b: nat)
    ensures LowByte(LowByte(a) as int + b) == LowByte(a + b)
  {
  }

  class Frame {
    var start1: byte
    var length1: byte
    var length2: byte
    var start2: byte
    var control: byte
    var address: byte
    var controlInformation: byte
    var checksum: byte
    var stop: byte
    /** The 252 data bytes, and the two bytes behind them that the record parser may look at. */
    const data: array<byte>
    var dataSize: nat
    var kind: FrameKind
    /** The next frame of a multi-telegram reply. */
    var next: Frame?

    ghost predicate Valid()
      reads this
    {
      data.Length == MAX_DATA + 2 && dataSize <= MAX_DATA
    }

    /** The frame as a value. */
    ghost function View(): Fields
      requires Valid()
      reads this, data
    {
      Fields(start1, length1, length2, start2, control, address, controlInformation,
             checksum, stop, data[..dataSize], kind)
    }

    ghost function Snapshot(): (im: Image)
      requires Valid()
      reads this, data
      ensures GoodImage(im) && im.fields == View()
    {
      Image(View(), data[..])
    }

    /** mbus_frame_new: everything zero but the start, stop and fixed length bytes of the kind. */
    constructor (kind: FrameKind)
      ensures Valid() && fresh(data) && next == null
      ensures View() == NewFields(kind) && dataSize == 0
      ensures forall k :: 0 <= k < data.Length ==> data[k] == 0
    {
      start1, length1, length2, start2, stop := 0, 0, 0, 0, 0;
      control, address, controlInformation, checksum := 0, 0, 0, 0;
      data := new byte[MAX_DATA + 2](_ => 0);
      dataSize, next := 0, null;
      this.kind := kind;
      match kind {
        case Ack =>
          start1 := ACK_START;
        case Short =>
          start1, stop := SHORT_START, STOP;
        case Control =>
          start1, start2, length1, length2, stop := LONG_START, LONG_START, 3, 3, STOP;
        case Long =>
          start1, start2, stop := LONG_START, LONG_START, STOP;
        case AnyKind =>
      }
    }

    /** calc_checksum: an unsigned char accumulator over the fields the kind covers. */
    method CalcChecksum() returns (sum: byte)
      requires Valid()
      ensures sum == Checksum(View())
    {
      match kind {
        case Short =>
          sum := LowByte(control as int + address);
        case Control =>
          sum := LowByte(control as int + address + controlInformation);
        case Long =>
          var head := control as int + address + controlInformation;
          sum := LowByte(head);
          var i := 0;
          while i < dataSize
            invariant 0 <= i <= dataSize
            invariant sum == LowByte(head + Sum(data[..i]))
          {
            assert data[..i + 1][..i] == data[..i];
            Carry(head + Sum(data[..i]), data[i]);
            sum := LowByte(sum as int + data[i]);
            i := i + 1;
          }
        case _ =>
          sum := 0;
      }
    }

    method CalcLength() returns (length: byte)
      requires Valid()
      ensures length == LengthByte(View())
      ensures kind in {Control, Long} ==> length == |Wire(View())| - 6
    {
      if kind in {Control, Long} {
        LengthByteExactly(View());
      }
      match kind {
        case Control => length := 3;
        case Long => length := LowByte(dataSize + 3);
        case _ => length := 0;
      }
    }

    /** mbus_frame_verify. */
    method VerifyFrame() returns (result: int)
      requires Valid()
      ensures result == Verify(View())
    {
      match kind {
        case Ack =>
          return if start1 == ACK_START then 1 else 0;
        case Short =>
          if start1 != SHORT_START || !AllowedShort(control) {
            return -1;
          }
        case Control | Long =>
          if start1 != LONG_START || start2 != LONG_START || !AllowedLong(control) || length1 != length2 {
            return -1;
          }
          var length := CalcLength();
          if length1 != length {
            return -1;
          }
        case AnyKind =>
          return -1;
      }
      if stop != STOP {
        return -1;
      }
      var sum := CalcChecksum();
      if checksum != sum {
        return -1;
      }
      return 0;
    }

    /** Copies `dataSize` bytes from behind the seven-byte head of a buffer. */
    method TakeData(buffer: array<byte>)
      requires Valid() && buffer != data && dataSize + 7 <= buffer.Length
      modifies data
      ensures data[..dataSize] == buffer[7..7 + dataSize]
      ensures data[dataSize..] == old(data[dataSize..])
    {
      var i := 0;
      while i < dataSize
        invariant 0 <= i <= dataSize
        invariant data[..i] == buffer[7..7 + i]
        invariant data[dataSize..] == old(data[dataSize..])
        modifies data
      {
        data[i] := buffer[7 + i];
        i := i + 1;
      }
    }

    /** The part of mbus_parse that runs once a whole control or long telegram is there. */
    method FillLong(buffer: array<byte>, size: nat)
      requires Valid() && 9 <= size <= 261 && size <= buffer.Length && buffer != data
      requires start1 == buffer[0] && length1 == buffer[1] && length2 == buffer[2]
      modifies this`start2, this`control, this`address, this`controlInformation, this`checksum, this`stop,
               this`dataSize, this`kind, data
      ensures Valid() && View() == LongFields(old(View()), buffer[..size])
      ensures data[dataSize..] == old(data[..])[dataSize..]
    {
      ghost var d := buffer[..size];
      assert d[7..size - 2] == buffer[7..size - 2];
      start2, control, address, controlInformation := buffer[3], buffer[4], buffer[5], buffer[6];
      checksum, stop := buffer[size - 2], buffer[size - 1];
      dataSize := size - 9;
      kind := if dataSize == 0 then Control else Long;
      ghost var f := View();
      assert f.(data := d[7..size - 2]) == LongFields(old(View()), d);
      TakeData(buffer);
      assert View() == f.(data := d[7..size - 2]);
    }

    /** The short-start case of mbus_parse. */
    method ParseShort(buffer: array<byte>, size: nat) returns (code: int)
      requires Valid() && 0 < size <= buffer.Length && buffer[0] == SHORT_START
      modifies this`start1, this`control, this`address, this`checksum, this`stop, this`kind
      ensures Valid()
      ensures Parsed(code, View()) == Parse(old(View()), buffer[..size])
    {
      if size < SHORT_SIZE {
        return SHORT_SIZE - size;
      }
      if size != SHORT_SIZE {
        return -2;
      }
      start1, control, address, checksum, stop := buffer[0], buffer[1], buffer[2], buffer[3], buffer[4];
      kind := Short;
      assert View() == ShortFields(old(View()), buffer[..size]);
      var verdict := VerifyFrame();
      return if verdict != 0 then -3 else 0;
    }

    /** The long-start case of mbus_parse. */
    method ParseLong(buffer: array<byte>, size: nat) returns (code: int)
      requires Valid() && 0 < size <= buffer.Length && buffer != data && buffer[0] == LONG_START
      modifies this, data
      ensures Valid() && next == old(next)
      ensures Parsed(code, View()) == Parse(old(View()), buffer[..size])
      ensures data[dataSize..] == old(data[..])[dataSize..]
    {
      if size < 3 {
        return 3 - size;
      }
      ghost var d := buffer[..size];
      start1, length1, length2 := buffer[0], buffer[1], buffer[2];
      assert View() == old(View()).(start1 := d[0], length1 := d[1], length2 := d[2]);
      if length1 < 3 || length1 != length2 {
        return -2;
      }
      var length := length1 as int;
      if size < FIXED_SIZE_LONG + length {
        return FIXED_SIZE_LONG + length - size;
      }
      if size > FIXED_SIZE_LONG + length {
        return -2;
      }
      FillLong(buffer, size);
      assert View() == LongFields(old(View()), d);
      var verdict := VerifyFrame();
      return if verdict != 0 then -3 else 0;
    }

    /** mbus_parse: fills the frame from the first `size` bytes of the buffer. */
    method ParseBuffer(buffer: array<byte>, size: nat) returns (code: int)
      requires Valid() && size <= buffer.Length && buffer != data
      modifies this, data
      ensures Valid()
      ensures Parsed(code, View()) == Parse(old(View()), buffer[..size])
      ensures Snapshot() == AfterParse(old(Snapshot()), buffer[..size])
      ensures next == if size > 0 then null else old(next)
    {
      code := ParseByStart(buffer, size);
      assert data[..] == data[..dataSize] + data[dataSize..];
    }

    /** The dispatch on the start byte. */
    method ParseByStart(buffer: array<byte>, size: nat) returns (code: int)
      requires Valid() && size <= buffer.Length && buffer != data
      modifies this, data
      ensures Valid()
      ensures Parsed(code, View()) == Parse(old(View()), buffer[..size])
      ensures data[dataSize..] == old(data[..])[dataSize..]
      ensures next == if size > 0 then null else old(next)
    {
      if size == 0 {
        return -1;
      }
      next := null;
      if buffer[0] == ACK_START {
        start1, kind := buffer[0], Ack;
        code := 0;
      } else if buffer[0] == SHORT_START {
        code := ParseShort(buffer, size);
      } else if buffer[0] == LONG_START {
        code := ParseLong(buffer, size);
      } else {
        code := -4;
      }
    }

    /** The five bytes of a short frame. */
    method WriteShort(buffer: array<byte>)
      requires Valid() && kind == Short && buffer != data && 5 <= buffer.Length
      modifies buffer
      ensures buffer[..] == Wire(View()) + old(buffer[..])[5..]
    {
      buffer[0], buffer[1], buffer[2], buffer[3], buffer[4] := start1, control, address, checksum, stop;
    }

    /** Copies the first `n` data bytes into the buffer behind a seven-byte head. */
    method CopyData(buffer: array<byte>, n: nat)
      requires Valid() && buffer != data && n <= dataSize && n + 7 <= buffer.Length
      modifies buffer
      ensures buffer[..7] == old(buffer[..7])
      ensures buffer[7..7 + n] == data[..n]
      ensures buffer[7 + n..] == old(buffer[7 + n..])
    {
      var i := 0;
      while i < n
        invariant 0 <= i <= n
        invariant buffer[..7] == old(buffer[..7])
        invariant buffer[7..7 + i] == data[..i]
        invariant buffer[7 + i..] == old(buffer[7 + i..])
        modifies buffer
      {
        buffer[7 + i] := data[i];
        i := i + 1;
      }
    }

    /** The long and control case of mbus_frame_pack, `n` data bytes. */
    method WriteLong(buffer: array<byte>, n: nat)
      requires Valid() && buffer != data && n <= dataSize && n + 9 <= buffer.Length
      modifies buffer
      ensures buffer[..] == Head(View()) + data[..n] + Tail(View()) + old(buffer[..])[9 + n..]
    {
      ghost var was := buffer[..];
      buffer[0], buffer[1], buffer[2], buffer[3] := start1, length1, length2, start2;
      buffer[4], buffer[5], buffer[6] := control, address, controlInformation;
      assert buffer[..7] == Head(View());
      assert buffer[9 + n..] == was[9 + n..];
      CopyData(buffer, n);
      assert buffer[7 + n..][2..] == buffer[9 + n..];
      buffer[7 + n], buffer[8 + n] := checksum, stop;
      assert buffer[7 + n..9 + n] == Tail(View());
      SplitInFour(buffer[..], 7, 7 + n, 9 + n);
    }

    /** mbus_frame_pack: seals the frame and writes it to the front of the buffer. */
    method PackInto(buffer: array<byte>) returns (code: int)
      requires Valid() && buffer != data
      modifies this, buffer
      ensures Valid() && next == old(next) && dataSize == old(dataSize)
      ensures old(kind) == AnyKind ==>
                code == -3 && View() == old(View()).(length1 := 0, length2 := 0) && buffer[..] == old(buffer[..])
      ensures old(kind) != AnyKind ==> View() == Sealed(old(View()))
      ensures match Pack(old(View()), buffer.Length)
              case Failed(c) => code == c && buffer[..] == old(buffer[..])
              case Bytes(w) => code == |w| && buffer[..] == w + old(buffer[..])[|w|..]
    {
      length1 := CalcLength();
      length2 := length1;
      if kind == AnyKind {
        return -3;
      }
      checksum := CalcChecksum();
      ghost var was := buffer[..];
      ghost var sealed := View();
      if kind == Ack {
        if buffer.Length < 1 {
          return -4;
        }
        buffer[0] := start1;
        return 1;
      } else if kind == Short {
        if buffer.Length < 5 {
          return -4;
        }
        WriteShort(buffer);
        return 5;
      } else {
        var n := if kind == Long then dataSize else 0;
        if buffer.Length < n + 9 {
          return -4;
        }
        WriteLong(buffer, n);
        assert Wire(sealed) == Head(sealed) + data[..n] + Tail(sealed);
        return 9 + n;
      }
    }
  }
}
