/** Laws of the record parser: what a parse covers, which bytes it depends on, and how packing
    and parsing undo each other. */
module RecordLaws {
  import opened Bytes
  import opened Records

  function RecordsOf(ps: seq<Piece>): seq<Record> {
    if ps == [] then []
    else
      match ps[0]
      case Filler => RecordsOf(ps[1..])
      case Rec(p) => (if p.dib == [] then [] else [RecordOf(p)]) + RecordsOf(ps[1..])
  }

  predicate AsksForMore(p: Piece) {
    p.Rec? && p.parts.dib != [] && p.parts.dib[0] == MORE_RECORDS_FOLLOW
  }

  /** more_records_follow: the parser met a record with DIF 1F somewhere. */
  predicate MoreFollow(ps: seq<Piece>) {
    ps != [] && (AsksForMore(ps[0]) || MoreFollow(ps[1..]))
  }

  lemma {:induction false} RecordsOfAppend(ps: seq<Piece>, p: Piece)
    ensures RecordsOf(ps + [p]) == RecordsOf(ps) + RecordsOf([p])
    ensures MoreFollow(ps + [p]) <==> MoreFollow(ps) || AsksForMore(p)
  {
    if ps == [] {
      assert ps + [p] == [p] && [p][1..] == [];
    } else {
      assert (ps + [p])[1..] == ps[1..] + [p];
      RecordsOfAppend(ps[1..], p);
    }
  }

  // ---------------------------------------------------------------- coverage

  function Length(ps: seq<Piece>): nat {
    if ps == [] then 0
    else (if ps[0].Filler? then 1 else |WireOf(ps[0].parts)|) + Length(ps[1..])
  }

  function Fillers(ps: seq<Piece>): nat {
    if ps == [] then 0 else (if ps[0].Filler? then 1 else 0) + Fillers(ps[1..])
  }

  lemma {:induction false} NothingAfterTheEnd(mem: seq<byte>, size: nat, ps: seq<Piece>)
    requires size + 2 <= |mem| && Tiles(mem, size, size, ps)
    ensures ps == []
  {
  }

  /** Every accepted telegram: the pieces account for every data byte, every non-filler piece is one
      record, a manufacturer specific block is the last piece, and more records follow exactly when
      that block has DIF 1F. */
  lemma PiecesCoverTheData(mem: seq<byte>, size: nat, i: nat, ps: seq<Piece>)
    requires size + 2 <= |mem| && i <= size && Split(mem, size, i) == Some(ps)
    ensures i + Length(ps) == size
    ensures |RecordsOf(ps)| + Fillers(ps) == |ps|
    ensures forall r :: r in RecordsOf(ps) ==> |r.dife| <= MAX_EXTENSIONS && |r.vife| <= MAX_EXTENSIONS
    ensures forall k :: 0 <= k < |ps| - 1 ==> ps[k].Filler? || !IsTailPart(ps[k].parts)
    ensures MoreFollow(ps) <==> ps != [] && AsksForMore(ps[|ps| - 1])
  {
    SplitTiles(mem, size, i, ps);
    TilesAddUp(mem, size, i, ps);
    TilesAreShort(mem, size, i, ps);
    TilesEndOnce(mem, size, i, ps);
  }

  lemma {:induction false} TilesAddUp(mem: seq<byte>, size: nat, i: nat, ps: seq<Piece>)
    requires size + 2 <= |mem| && i <= size && Tiles(mem, size, i, ps)
    ensures i + Length(ps) == size && |RecordsOf(ps)| + Fillers(ps) == |ps|
    decreases |ps|
  {
    if ps != [] {
      TilesAddUp(mem, size, i + if ps[0].Filler? then 1 else |WireOf(ps[0].parts)|, ps[1..]);
    }
  }

  lemma {:induction false} TilesAreShort(mem: seq<byte>, size: nat, i: nat, ps: seq<Piece>)
    requires size + 2 <= |mem| && i <= size && Tiles(mem, size, i, ps)
    ensures forall r :: r in RecordsOf(ps) ==> |r.dife| <= MAX_EXTENSIONS && |r.vife| <= MAX_EXTENSIONS
    decreases |ps|
  {
    if ps != [] {
      TilesAreShort(mem, size, i + if ps[0].Filler? then 1 else |WireOf(ps[0].parts)|, ps[1..]);
      RecordsOfSplit(ps);
    }
  }

  lemma {:induction false} TilesEndOnce(mem: seq<byte>, size: nat, i: nat, ps: seq<Piece>)
    requires size + 2 <= |mem| && i <= size && Tiles(mem, size, i, ps)
    ensures forall k :: 0 <= k < |ps| - 1 ==> ps[k].Filler? || !IsTailPart(ps[k].parts)
    ensures MoreFollow(ps) <==> ps != [] && AsksForMore(ps[|ps| - 1])
    decreases |ps|
  {
    if ps != [] {
      var end := i + if ps[0].Filler? then 1 else |WireOf(ps[0].parts)|;
      TilesEndOnce(mem, size, end, ps[1..]);
      if end == size {
        NothingAfterTheEnd(mem, size, ps[1..]);
      }
    }
  }

  // ---------------------------------------------------------------- stale bytes

  /** End of the header blocks of the record at `i`. */
  function BlocksEnd(mem: seq<byte>, size: nat, i: nat): Option<nat>
    requires size + 2 <= |mem| && i < size
  {
    match DibEnd(mem, size, i)
    case None => None
    case Some(j) =>
      match VifEnd(mem, size, j)
      case None => None
      case Some(k) => VifeEnd(mem, size, mem[j], k)
  }

  /** The parse reaches a variable length record whose LVAR byte would be the first one that is not
      part of the data. */
  predicate Dangles(mem: seq<byte>, size: nat, i: nat)
    requires size + 2 <= |mem|
    decreases size - i
  {
    i < size
    && if mem[i] == IDLE_FILLER then Dangles(mem, size, i + 1)
       else
         && !IsTail(mem[i])
         && BlocksEnd(mem, size, i).Some?
         && if HasVariableLength(mem[i]) && BlocksEnd(mem, size, i).value == size then true
            else Measure(mem, size, i).Some? && Dangles(mem, size, Measure(mem, size, i).value.end)
  }

  lemma {:induction false} ExtensionsStable(a: seq<byte>, b: seq<byte>, size: nat, i: nat, taken: nat)
    requires size + 2 <= |a| && size + 2 <= |b| && a[..size] == b[..size]
    ensures Extensions(a, size, i, taken) == Extensions(b, size, i, taken)
    decreases size - i
  {
    if i < size {
      assert a[..size][i] == b[..size][i];
      ExtensionsStable(a, b, size, i + 1, taken + 1);
    }
  }

  lemma BlocksStable(a: seq<byte>, b: seq<byte>, size: nat, i: nat)
    requires size + 2 <= |a| && size + 2 <= |b| && a[..size] == b[..size] && i < size
    ensures BlocksEnd(a, size, i) == BlocksEnd(b, size, i)
    ensures BlocksEnd(a, size, i).Some? ==> BlocksEnd(a, size, i).value <= size
  {
    ExtensionsStable(a, b, size, i, 0);
    if DibEnd(a, size, i).Some? {
      var j := DibEnd(a, size, i).value;
      if j < size {
        assert a[..size][j] == b[..size][j];
        if j + 1 < size {
          assert a[..size][j + 1] == b[..size][j + 1];
        }
        if VifEnd(a, size, j).Some? {
          ExtensionsStable(a, b, size, VifEnd(a, size, j).value, 1);
        }
      }
    }
  }

  lemma MeasureStable(a: seq<byte>, b: seq<byte>, size: nat, i: nat)
    requires size + 2 <= |a| && size + 2 <= |b| && a[..size] == b[..size] && i < size
    requires !(HasVariableLength(a[i]) && BlocksEnd(a, size, i) == Some(size))
    ensures Measure(a, size, i) == Measure(b, size, i)
  {
    BlocksStable(a, b, size, i);
    ExtensionsStable(a, b, size, i, 0);
    assert a[i] == a[..size][i] == b[i];
    if BlocksEnd(a, size, i).Some? {
      var p := BlocksEnd(a, size, i).value;
      var j := DibEnd(a, size, i).value;
      if p < size {
        assert a[p] == a[..size][p] == b[p];
      }
      assert j < size;
      assert a[j] == a[..size][j] == b[j];
      if j + 1 < size {
        assert a[j + 1] == a[..size][j + 1] == b[j + 1];
      }
    }
  }

  lemma SlicesStable(a: seq<byte>, b: seq<byte>, size: nat, x: nat, y: nat)
    requires size <= |a| && size <= |b| && a[..size] == b[..size] && x <= y <= size
    ensures a[x..y] == b[x..y]
  {
    assert a[x..y] == a[..size][x..y];
    assert b[x..y] == b[..size][x..y];
  }

  lemma PartsStable(a: seq<byte>, b: seq<byte>, size: nat, i: nat, l: Layout)
    requires size <= |a| && size <= |b| && a[..size] == b[..size] && Ordered(i, l, size)
    ensures PartsAt(a, i, l) == PartsAt(b, i, l)
  {
    SlicesStable(a, b, size, i, l.vif);
    SlicesStable(a, b, size, l.vif, l.vife);
    SlicesStable(a, b, size, l.vife, l.lvar);
    SlicesStable(a, b, size, l.lvar, l.data);
    SlicesStable(a, b, size, l.data, l.end);
  }

  /** Two frames with the same data give the same parse whatever lies behind the data, unless a
      variable length record dangles; and whether one does depends on the data alone. */
  lemma {:induction false} StaleBytesDoNotMatter(a: seq<byte>, b: seq<byte>, size: nat, i: nat)
    requires size + 2 <= |a| && size + 2 <= |b| && a[..size] == b[..size]
    ensures Dangles(a, size, i) <==> Dangles(b, size, i)
    ensures !Dangles(a, size, i) ==> Split(a, size, i) == Split(b, size, i)
    decreases size - i
  {
    if i < size {
      assert a[i] == a[..size][i] == b[i];
      if a[i] == IDLE_FILLER {
        StaleBytesDoNotMatter(a, b, size, i + 1);
      } else if IsTail(a[i]) {
        SlicesStable(a, b, size, i, i + 1);
        SlicesStable(a, b, size, i + 1, size);
      } else {
        BlocksStable(a, b, size, i);
        if !(HasVariableLength(a[i]) && BlocksEnd(a, size, i) == Some(size)) {
          MeasureStable(a, b, size, i);
          if Measure(a, size, i).Some? {
            var l := Measure(a, size, i).value;
            LayoutInOrder(a, size, i);
            PartsStable(a, b, size, i, l);
            StaleBytesDoNotMatter(a, b, size, l.end);
          }
        }
      }
    }
  }

  /** When one dangles, the stale byte alone decides: the parse succeeds exactly if it is FB..FF. */
  lemma {:induction false} DanglingReadsAStaleByte(mem: seq<byte>, size: nat, i: nat)
    requires size + 2 <= |mem| && Dangles(mem, size, i)
    ensures Split(mem, size, i).Some? <==> mem[size] >= 0xFB
    decreases size - i
  {
    if mem[i] == IDLE_FILLER {
      DanglingReadsAStaleByte(mem, size, i + 1);
    } else if !(HasVariableLength(mem[i]) && BlocksEnd(mem, size, i).value == size) {
      LayoutInOrder(mem, size, i);
      DanglingReadsAStaleByte(mem, size, Measure(mem, size, i).value.end);
    }
  }

  /** The parse of given data is the same for every content of the memory behind it exactly when no
      variable length record dangles. */
  lemma IndependentOfStaleBytesExactly(mem: seq<byte>, size: nat)
    requires size + 2 == |mem|
    ensures !Dangles(mem, size, HEADER_SIZE) <==>
              forall b :: |b| == |mem| && b[..size] == mem[..size]
                          ==> Split(b, size, HEADER_SIZE) == Split(mem, size, HEADER_SIZE)
  {
    if !Dangles(mem, size, HEADER_SIZE) {
      forall b | |b| == |mem| && b[..size] == mem[..size]
        ensures Split(b, size, HEADER_SIZE) == Split(mem, size, HEADER_SIZE)
      {
        StaleBytesDoNotMatter(mem, b, size, HEADER_SIZE);
      }
    } else {
      var zero, full := mem[size := 0], mem[size := 0xFF];
      assert zero[..size] == mem[..size] && full[..size] == mem[..size];
      StaleBytesDoNotMatter(mem, zero, size, HEADER_SIZE);
      StaleBytesDoNotMatter(mem, full, size, HEADER_SIZE);
      DanglingReadsAStaleByte(zero, size, HEADER_SIZE);
      DanglingReadsAStaleByte(full, size, HEADER_SIZE);
    }
  }

  // ---------------------------------------------------------------- packing

  /** What mbus_frame_internal_pack writes for one record: neither LVAR byte nor custom VIF. */
  function PackRecord(r: Record): seq<byte> {
    [r.dif] + r.dife + [r.vif] + r.vife + r.data
  }

  function PackRecords(rs: seq<Record>): seq<byte> {
    if rs == [] then [] else PackRecord(rs[0]) + PackRecords(rs[1..])
  }

  function PackVariable(h: Header, rs: seq<Record>): seq<byte> {
    HeaderBytes(h) + PackRecords(rs)
  }

  predicate GoodHeader(h: Header) {
    |h.id| == 4 && |h.manufacturer| == 2 && |h.signature| == 2
  }

  function PartsOf(r: Record): Parts {
    Parts([r.dif] + r.dife, [r.vif], r.vife, [], r.data)
  }

  /** A record of fixed width whose extension bits agree with its extensions. */
  predicate FixedWidth(r: Record) {
    && GoodParts(PartsOf(r), 0) && !HasVariableLength(r.dif) && r.customVif == []
  }

  function PiecesOf(rs: seq<Record>): seq<Piece> {
    if rs == [] then [] else [Rec(PartsOf(rs[0]))] + PiecesOf(rs[1..])
  }

  lemma FixedWidthOnWire(r: Record, following: byte)
    requires FixedWidth(r)
    ensures WireOf(PartsOf(r)) == PackRecord(r) && RecordOf(PartsOf(r)) == r
    ensures GoodParts(PartsOf(r), following) && !IsTailPart(PartsOf(r))
  {
    assert WireOf(PartsOf(r)) == [r.dif] + r.dife + [r.vif] + r.vife + [] + r.data;
  }

  lemma {:induction false} RecordsOfPieces(rs: seq<Record>)
    requires forall r :: r in rs ==> FixedWidth(r)
    ensures RecordsOf(PiecesOf(rs)) == rs
  {
    if rs != [] {
      FixedWidthOnWire(rs[0], 0);
      RecordsOfPieces(rs[1..]);
      assert PiecesOf(rs)[1..] == PiecesOf(rs[1..]);
    }
  }

  lemma FixedInFront(mem: seq<byte>, size: nat, i: nat, r: Record, mid: nat, ps: seq<Piece>)
    requires size + 2 <= |mem| && i <= mid <= size && mem[i..mid] == PackRecord(r) && FixedWidth(r)
    requires ps != [] && ps[0] == Rec(PartsOf(r)) && Tiles(mem, size, mid, ps[1..])
    ensures Tiles(mem, size, i, ps)
  {
    FixedWidthOnWire(r, mem[mid]);
    RecordTiles(mem, size, i, ps, PartsOf(r), mid);
  }

  lemma FirstOfPacked(mem: seq<byte>, i: nat, rs: seq<Record>, end: nat) returns (mid: nat)
    requires i <= end <= |mem| && mem[i..end] == PackRecords(rs) && rs != []
    ensures i <= mid <= end && mem[i..mid] == PackRecord(rs[0]) && mem[mid..end] == PackRecords(rs[1..])
  {
    mid := i + |PackRecord(rs[0])|;
    Unjoin(mem, i, PackRecord(rs[0]), PackRecords(rs[1..]));
  }

  lemma FirstAndRest(p: Piece, rest: seq<Piece>, ts: seq<Piece>)
    ensures ([p] + rest + ts)[0] == p && ([p] + rest + ts)[1..] == rest + ts
  {
  }

  lemma PiecesSplit(rs: seq<Record>, ts: seq<Piece>)
    requires rs != []
    ensures
      var ps := PiecesOf(rs) + ts;
      ps != [] && ps[0] == Rec(PartsOf(rs[0])) && ps[1..] == PiecesOf(rs[1..]) + ts
  {
    FirstAndRest(Rec(PartsOf(rs[0])), PiecesOf(rs[1..]), ts);
  }

  /** Fixed width records, and behind them what tiles by itself. */
  lemma {:induction false} PackedInFront(mem: seq<byte>, size: nat, i: nat, rs: seq<Record>, end: nat, ts: seq<Piece>)
    requires size + 2 <= |mem| && i <= end <= size && mem[i..end] == PackRecords(rs) && Tiles(mem, size, end, ts)
    requires forall r :: r in rs ==> FixedWidth(r)
    ensures Tiles(mem, size, i, PiecesOf(rs) + ts)
    decreases |rs|
  {
    var ps := PiecesOf(rs) + ts;
    if rs == [] {
      assert i == end;
      assert ps == ts;
    } else {
      var mid := FirstOfPacked(mem, i, rs, end);
      PackedInFront(mem, size, mid, rs[1..], end, ts);
      PiecesSplit(rs, ts);
      FixedInFront(mem, size, i, rs[0], mid, ps);
    }
  }

  lemma PackedRecordsTile(mem: seq<byte>, size: nat, i: nat, rs: seq<Record>)
    requires size + 2 <= |mem| && i <= size && mem[i..size] == PackRecords(rs)
    requires forall r :: r in rs ==> FixedWidth(r)
    ensures Tiles(mem, size, i, PiecesOf(rs))
  {
    PackedInFront(mem, size, i, rs, size, []);
    assert PiecesOf(rs) + [] == PiecesOf(rs);
  }

  /** A manufacturer specific block takes the rest of the data. */
  lemma TailTiles(mem: seq<byte>, size: nat, i: nat, p: Parts)
    requires size + 2 <= |mem| && i <= size && mem[i..size] == WireOf(p) && IsTailPart(p)
    ensures Tiles(mem, size, i, [Rec(p)])
  {
    assert [Rec(p)][1..] == [];
  }

  /** Parsing undoes packing, for every header and every list of fixed width records. */
  lemma ParseUndoesPackVariable(h: Header, rs: seq<Record>, behind: seq<byte>)
    requires GoodHeader(h) && |behind| >= 2 && forall r :: r in rs ==> FixedWidth(r)
    ensures
      var d := PackVariable(h, rs);
      && |d| >= HEADER_SIZE && HeaderOf(d + behind) == h
      && Split(d + behind, |d|, HEADER_SIZE) == Some(PiecesOf(rs))
      && RecordsOf(PiecesOf(rs)) == rs
  {
    var d := PackVariable(h, rs);
    var mem := d + behind;
    var hb := HeaderBytes(h);
    assert |hb| == HEADER_SIZE && hb == mem[..HEADER_SIZE];
    assert h.id == hb[..4] && h.manufacturer == hb[4..6] && h.signature == hb[10..12];
    assert mem[..4] == hb[..4] && mem[4..6] == hb[4..6] && mem[10..12] == hb[10..12];
    assert mem[HEADER_SIZE..|d|] == PackRecords(rs);
    PackedRecordsTile(mem, |d|, HEADER_SIZE, rs);
    TilingIsFound(mem, |d|, HEADER_SIZE, PiecesOf(rs));
    RecordsOfPieces(rs);
  }

  lemma {:induction false} NoMoreFollow(rs: seq<Record>)
    requires forall r :: r in rs ==> FixedWidth(r)
    ensures !MoreFollow(PiecesOf(rs))
  {
    if rs != [] {
      NoMoreFollow(rs[1..]);
      FixedWidthOnWire(rs[0], 0);
      assert PiecesOf(rs)[1..] == PiecesOf(rs[1..]);
    }
  }

  /** The records of such data. */
  lemma RecordsThenTail(rs: seq<Record>, p: Parts, ps: seq<Piece>)
    requires (forall r :: r in rs ==> FixedWidth(r)) && IsTailPart(p) && ps == PiecesOf(rs) + [Rec(p)]
    ensures RecordsOf(ps) == rs + [Record(p.dib[0], [], 0, [], [], p.data)]
    ensures MoreFollow(ps) <==> p.dib[0] == 0x1F
  {
    RecordsOfPieces(rs);
    NoMoreFollow(rs);
    RecordsOfAppend(PiecesOf(rs), Rec(p));
    assert [Rec(p)][1..] == [] && p.dib[1..] == [];
  }

  /** And with a manufacturer specific block behind them, which the packer does not write: it becomes the
      last record, and DIF 1F announces more telegrams. */
  lemma ParsesTail(h: Header, rs: seq<Record>, p: Parts, d: seq<byte>, ps: seq<Piece>, behind: seq<byte>)
    requires GoodHeader(h) && |behind| >= 2 && (forall r :: r in rs ==> FixedWidth(r)) && IsTailPart(p)
    requires d == PackVariable(h, rs) + WireOf(p) && ps == PiecesOf(rs) + [Rec(p)]
    ensures |d| >= HEADER_SIZE && HeaderOf(d + behind) == h
    ensures Split(d + behind, |d|, HEADER_SIZE) == Some(ps)
    ensures RecordsOf(ps) == rs + [Record(p.dib[0], [], 0, [], [], p.data)]
    ensures MoreFollow(ps) <==> p.dib[0] == 0x1F
  {
    RecordsThenTail(rs, p, ps);
    TailIsParsed(HeaderBytes(h), PackRecords(rs), WireOf(p), behind, d + behind, |d|, rs, p);
    HeaderInFront(h, d + behind);
  }

  lemma TailIsParsed(hb: seq<byte>, rb: seq<byte>, w: seq<byte>, behind: seq<byte>, mem: seq<byte>, size: nat,
                     rs: seq<Record>, p: Parts)
    requires |hb| == HEADER_SIZE && |behind| >= 2 && mem == hb + rb + w + behind && size == |hb| + |rb| + |w|
    requires (forall r :: r in rs ==> FixedWidth(r)) && IsTailPart(p) && rb == PackRecords(rs) && w == WireOf(p)
    ensures mem[..HEADER_SIZE] == hb && Split(mem, size, HEADER_SIZE) == Some(PiecesOf(rs) + [Rec(p)])
  {
    var end := HEADER_SIZE + |rb|;
    assert mem[..HEADER_SIZE] == hb && mem[HEADER_SIZE..end] == rb && mem[end..size] == w;
    TailTiles(mem, size, end, p);
    PackedInFront(mem, size, HEADER_SIZE, rs, end, [Rec(p)]);
    TilingIsFound(mem, size, HEADER_SIZE, PiecesOf(rs) + [Rec(p)]);
  }

  lemma HeaderInFront(h: Header, mem: seq<byte>)
    requires GoodHeader(h) && |mem| >= HEADER_SIZE && mem[..HEADER_SIZE] == HeaderBytes(h)
    ensures HeaderOf(mem) == h
  {
    var hb := HeaderBytes(h);
    assert |hb| == HEADER_SIZE && hb == mem[..HEADER_SIZE];
    assert h.id == hb[..4] && h.manufacturer == hb[4..6] && h.signature == hb[10..12];
    assert mem[..4] == hb[..4] && mem[4..6] == hb[4..6] && mem[10..12] == hb[10..12];
  }

  // ---------------------------------------------------------------- repacking a parse

  /** No byte of this piece is lost or added when its record is packed again. */
  predicate Plain(p: Piece) {
    p.Rec? && !IsTailPart(p.parts) && |p.parts.vif| == 1 && p.parts.lvar == []
  }

  predicate AllPlain(ps: seq<Piece>) {
    ps == [] || (Plain(ps[0]) && AllPlain(ps[1..]))
  }

  predicate EndsInTail(ps: seq<Piece>) {
    ps != [] && ps[|ps| - 1].Rec? && IsTailPart(ps[|ps| - 1].parts)
  }

  lemma {:induction false} RecordsOfSplit(ps: seq<Piece>)
    requires ps != []
    ensures RecordsOf(ps) == RecordsOf(ps[..1]) + RecordsOf(ps[1..])
  {
    assert ps[..1][1..] == [];
  }

  lemma {:induction false} PackAppend(a: seq<Record>, b: seq<Record>)
    ensures PackRecords(a + b) == PackRecords(a) + PackRecords(b)
  {
    if a == [] {
      assert a + b == b;
    } else {
      assert (a + b)[1..] == a[1..] + b;
      PackAppend(a[1..], b);
    }
  }

  /** What one piece contributes when the parse is packed again. */
  function Again(p: Piece): seq<byte> {
    PackRecords(RecordsOf([p]))
  }

  lemma RepackStep(ps: seq<Piece>)
    requires ps != []
    ensures PackRecords(RecordsOf(ps)) == Again(ps[0]) + PackRecords(RecordsOf(ps[1..]))
  {
    RecordsOfSplit(ps);
    assert ps[..1] == [ps[0]];
    PackAppend(RecordsOf(ps[..1]), RecordsOf(ps[1..]));
  }

  lemma AgainOf(p: Parts)
    requires p.dib != []
    ensures Again(Rec(p)) == PackRecord(RecordOf(p))
    ensures Plain(Rec(p)) && p.vif != [] ==> Again(Rec(p)) == WireOf(p)
    ensures IsTailPart(p) ==> Again(Rec(p)) == p.dib + [0] + p.data && WireOf(p) == p.dib + p.data
    ensures p.vif != [] ==> |Again(Rec(p))| == |WireOf(p)| - (|p.vif| - 1) - |p.lvar|
  {
    var r := RecordOf(p);
    assert [Rec(p)][1..] == [] && RecordsOf([Rec(p)]) == [r];
    assert PackRecords([r]) == PackRecord(r) + PackRecords([r][1..]) == PackRecord(r);
    assert [r.dif] + r.dife == p.dib;
    if |p.vif| == 1 {
      assert [r.vif] == p.vif;
    }
  }

  lemma OrdinaryAgain(p: Parts, following: byte)
    requires GoodParts(p, following) && !IsTailPart(p)
    ensures if Plain(Rec(p)) then Again(Rec(p)) == WireOf(p) else |Again(Rec(p))| < |WireOf(p)|
  {
    AgainOf(p);
  }

  lemma LastOfRest(ps: seq<Piece>)
    requires |ps| > 1
    ensures ps[1..][|ps| - 2] == ps[|ps| - 1]
    ensures EndsInTail(ps) <==> EndsInTail(ps[1..])
  {
  }

  /** Only the last piece can be a manufacturer specific block. */
  lemma TailIsLast(mem: seq<byte>, size: nat, i: nat, ps: seq<Piece>)
    requires size + 2 <= |mem| && i <= size && Tiles(mem, size, i, ps) && ps != []
    requires ps[0].Rec? && IsTailPart(ps[0].parts)
    ensures |ps| == 1
  {
    NothingAfterTheEnd(mem, size, ps[1..]);
  }

  function PieceBytes(p: Piece): seq<byte> {
    if p.Filler? then [IDLE_FILLER] else WireOf(p.parts)
  }

  lemma FirstPiece(mem: seq<byte>, size: nat, i: nat, ps: seq<Piece>) returns (end: nat)
    requires size + 2 <= |mem| && i <= size && Tiles(mem, size, i, ps) && ps != []
    ensures i < end <= size && end == i + |PieceBytes(ps[0])| && Tiles(mem, size, end, ps[1..])
    ensures mem[i..size] == PieceBytes(ps[0]) + mem[end..size]
    ensures ps[0].Rec? && !IsTailPart(ps[0].parts) ==> GoodParts(ps[0].parts, mem[end])
  {
    end := i + |PieceBytes(ps[0])|;
    Join(mem, i, end, size);
    if ps[0].Filler? {
      assert mem[i..end] == [mem[i]];
    }
  }

  lemma FirstAgain(p: Piece, following: byte)
    requires p.Rec? ==> !IsTailPart(p.parts) && GoodParts(p.parts, following)
    ensures if Plain(p) then Again(p) == PieceBytes(p) else |Again(p)| < |PieceBytes(p)|
  {
    if p.Filler? {
      assert [p][1..] == [];
    } else {
      OrdinaryAgain(p.parts, following);
    }
  }

  /** Without a manufacturer specific block packing again never lengthens, and it gives the same
      bytes exactly if every piece is plain. */
  lemma {:induction false} RepackWithoutTail(mem: seq<byte>, size: nat, i: nat, ps: seq<Piece>)
    requires size + 2 <= |mem| && i <= size && Tiles(mem, size, i, ps) && !EndsInTail(ps)
    ensures if AllPlain(ps) then PackRecords(RecordsOf(ps)) == mem[i..size]
            else |PackRecords(RecordsOf(ps))| < size - i
    decreases |ps|
  {
    if ps != [] {
      RepackStep(ps);
      var end := FirstPiece(mem, size, i, ps);
      if ps[0].Rec? && IsTailPart(ps[0].parts) {
        TailIsLast(mem, size, i, ps);
        assert false;
      }
      if |ps| > 1 {
        LastOfRest(ps);
      }
      FirstAgain(ps[0], mem[end]);
      RepackWithoutTail(mem, size, end, ps[1..]);
    }
  }

  function FromEnd(s: seq<byte>, n: nat): byte
    requires n < |s|
  {
    s[|s| - 1 - n]
  }

  lemma FromEndOfSum(x: seq<byte>, y: seq<byte>, n: nat)
    requires n < |y|
    ensures FromEnd(x + y, n) == FromEnd(y, n)
  {
  }

  /** With such a block the packed bytes differ at the byte in front of its data. */
  lemma {:induction false} RepackWithTail(mem: seq<byte>, size: nat, i: nat, ps: seq<Piece>) returns (n: nat)
    requires size + 2 <= |mem| && i <= size && Tiles(mem, size, i, ps) && EndsInTail(ps)
    ensures n < |PackRecords(RecordsOf(ps))| && FromEnd(PackRecords(RecordsOf(ps)), n) == 0
    ensures n < size - i && FromEnd(mem[i..size], n) != 0
    decreases |ps|
  {
    RepackStep(ps);
    var end := FirstPiece(mem, size, i, ps);
    if ps[0].Rec? && IsTailPart(ps[0].parts) {
      var p := ps[0].parts;
      TailIsLast(mem, size, i, ps);
      AgainOf(p);
      assert PackRecords(RecordsOf(ps[1..])) == [];
      n := |p.data|;
    } else {
      LastOfRest(ps);
      n := RepackWithTail(mem, size, end, ps[1..]);
      FromEndOfSum(Again(ps[0]), PackRecords(RecordsOf(ps[1..])), n);
      FromEndOfSum(PieceBytes(ps[0]), mem[end..size], n);
    }
  }

  lemma {:induction false} PlainHasNoTail(ps: seq<Piece>)
    requires AllPlain(ps)
    ensures !EndsInTail(ps)
  {
    if |ps| > 1 {
      LastOfRest(ps);
      PlainHasNoTail(ps[1..]);
    }
  }

  /** Packing the records of a parse again gives the original bytes exactly when the data has no
      filler, no custom VIF, no LVAR byte and no manufacturer specific block. */
  lemma RepackExactly(mem: seq<byte>, size: nat, i: nat, ps: seq<Piece>)
    requires size + 2 <= |mem| && i <= size && Split(mem, size, i) == Some(ps)
    ensures PackRecords(RecordsOf(ps)) == mem[i..size] <==> AllPlain(ps)
  {
    SplitTiles(mem, size, i, ps);
    if EndsInTail(ps) {
      var n := RepackWithTail(mem, size, i, ps);
      if AllPlain(ps) {
        PlainHasNoTail(ps);
      }
    } else {
      RepackWithoutTail(mem, size, i, ps);
    }
  }
}
