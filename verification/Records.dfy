/** The variable data structure: how a telegram's data splits into fillers and records.

    `mem` is the frame's data buffer, `size` its data size; the parser looks up to two bytes past
    `size`, so the buffer is that much longer. */
module Records {
  import opened Bytes

  const HEADER_SIZE := 12
  const MANUFACTURER_SPECIFIC: byte := 0x0F
  const MORE_RECORDS_FOLLOW: byte := 0x1F
  const IDLE_FILLER: byte := 0x2F
  const MAX_EXTENSIONS := 10
  const MAX_CUSTOM_VIF := 128

  datatype Header = Header(
    id: seq<byte>, manufacturer: seq<byte>, version: byte, medium: byte,
    accessNo: byte, status: byte, signature: seq<byte>)

  function HeaderOf(d: seq<byte>): Header
    requires |d| >= HEADER_SIZE
  {
    Header(d[..4], d[4..6], d[6], d[7], d[8], d[9], d[10..12])
  }

  function HeaderBytes(h: Header): seq<byte> {
    h.id + h.manufacturer + [h.version, h.medium, h.accessNo, h.status] + h.signature
  }

  datatype Record = Record(
    dif: byte, dife: seq<byte>, vif: byte, vife: seq<byte>, customVif: seq<byte>, data: seq<byte>)

  /** mbus_dif_datalength_lookup. */
  function DataLength(dif: byte): nat {
    [0, 1, 2, 3, 4, 4, 6, 8, 0, 1, 2, 3, 4, 0, 6, 8][dif % 16]
  }

  /** Data length given by an LVAR byte; none for the values that the parser does not consume. */
  function LvarLength(b: byte): Option<nat> {
    if b <= 0xBF then Some(b)
    else if b <= 0xCF then Some((b - 0xC0) * 2)
    else if b <= 0xDF then Some((b - 0xD0) * 2)
    else if b <= 0xEF then Some(b - 0xE0)
    else if b <= 0xFA then Some(b - 0xF0)
    else None
  }

  predicate IsTail(dif: byte) {
    dif == MANUFACTURER_SPECIFIC || dif == MORE_RECORDS_FOLLOW
  }

  predicate HasVariableLength(dif: byte) {
    dif % 16 == 0x0D
  }

  predicate HasCustomVif(vif: byte) {
    vif == 0x7C || vif == 0xFC
  }

  // ---------------------------------------------------------------- the parser

  /** The inner extension loop: how many bytes it steps over from `i`, `taken` already stored. */
  function Extensions(mem: seq<byte>, size: nat, i: nat, taken: nat): Option<nat>
    requires size + 2 <= |mem|
    decreases size - i
  {
    if i < size && mem[i] >= 0x80 then
      if taken >= MAX_EXTENSIONS then None
      else
        match Extensions(mem, size, i + 1, taken + 1)
        case None => None
        case Some(n) => Some(n + 1)
    else Some(0)
  }

  /** Where the parts of a record start: VIF, VIFE, LVAR byte, data; and where the record ends. */
  datatype Layout = Layout(vif: nat, vife: nat, lvar: nat, data: nat, end: nat)

  function DibEnd(mem: seq<byte>, size: nat, i: nat): Option<nat>
    requires size + 2 <= |mem| && i < size
  {
    match Extensions(mem, size, i, 0)
    case None => None
    case Some(n) => if i + n + 1 > size then None else Some(i + n + 1)
  }

  /** End of VIF and custom VIF; the VIF may sit at `size`, which is found out later. */
  function VifEnd(mem: seq<byte>, size: nat, j: nat): Option<nat>
    requires size + 2 <= |mem| && j <= size
  {
    if !HasCustomVif(mem[j]) then Some(j + 1)
    else if mem[j + 1] > MAX_CUSTOM_VIF || j + 2 + mem[j + 1] > size then None
    else Some(j + 2 + mem[j + 1])
  }

  function VifeEnd(mem: seq<byte>, size: nat, vif: byte, k: nat): Option<nat>
    requires size + 2 <= |mem| && k <= size + 1
  {
    if vif < 0x80 then if k > size then None else Some(k)
    else
      match Extensions(mem, size, k, 1)
      case None => None
      case Some(n) => if k + n + 1 > size then None else Some(k + n + 1)
  }

  /** Start and length of the data behind the header blocks that end at `p`. */
  function DataSpan(mem: seq<byte>, dif: byte, p: nat): (nat, nat)
    requires p < |mem|
  {
    if !HasVariableLength(dif) then (p, DataLength(dif))
    else
      match LvarLength(mem[p])
      case Some(n) => (p + 1, n)
      case None => (p, 0)
  }

  /** Layout of the ordinary record at `i`, or none where the parser gives up. */
  function Measure(mem: seq<byte>, size: nat, i: nat): Option<Layout>
    requires size + 2 <= |mem| && i < size
  {
    match DibEnd(mem, size, i)
    case None => None
    case Some(j) =>
      match VifEnd(mem, size, j)
      case None => None
      case Some(k) =>
        match VifeEnd(mem, size, mem[j], k)
        case None => None
        case Some(p) =>
          var (q, n) := DataSpan(mem, mem[i], p);
          if q + n > size then None else Some(Layout(j, k, p, q, q + n))
  }

  /** The positions of a layout are in order and inside the data. */
  predicate Ordered(i: nat, l: Layout, size: nat) {
    i < l.vif < l.vife <= l.lvar <= l.data <= l.end <= size
  }

  lemma LayoutInOrder(mem: seq<byte>, size: nat, i: nat)
    requires size + 2 <= |mem| && i < size
    ensures Measure(mem, size, i).Some? ==> Ordered(i, Measure(mem, size, i).value, size)
  {
  }

  /** The bytes of a record, part by part: DIF and DIFE, VIF and custom VIF, VIFE, LVAR byte, data.
      A manufacturer specific block has only its DIF and data. */
  datatype Parts = Parts(dib: seq<byte>, vif: seq<byte>, vife: seq<byte>, lvar: seq<byte>, data: seq<byte>)

  function WireOf(p: Parts): seq<byte> {
    p.dib + p.vif + p.vife + p.lvar + p.data
  }

  function PartsAt(mem: seq<byte>, i: nat, l: Layout): Parts
    requires Ordered(i, l, |mem|)
  {
    Parts(mem[i..l.vif], mem[l.vif..l.vife], mem[l.vife..l.lvar], mem[l.lvar..l.data], mem[l.data..l.end])
  }

  /** The record that the parser builds from the parts; a custom VIF is sent back to front. */
  function RecordOf(p: Parts): Record
    requires p.dib != []
  {
    Record(p.dib[0], p.dib[1..],
           if p.vif == [] then 0 else p.vif[0],
           p.vife,
           if |p.vif| >= 2 then Reversed(p.vif[2..]) else [],
           p.data)
  }

  /** A stretch of the data: a filler byte, or the parts of a record. */
  datatype Piece = Filler | Rec(parts: Parts)

  function Prepend(p: Piece, rest: Option<seq<Piece>>): Option<seq<Piece>> {
    match rest
    case None => None
    case Some(ps) => Some([p] + ps)
  }

  /** The record loop of mbus_data_variable_parse from position `i`; a manufacturer specific block
      takes all that is left. */
  function Split(mem: seq<byte>, size: nat, i: nat): Option<seq<Piece>>
    requires size + 2 <= |mem|
    decreases size - i
  {
    if i >= size then Some([])
    else if mem[i] == IDLE_FILLER then Prepend(Filler, Split(mem, size, i + 1))
    else if IsTail(mem[i]) then Some([Rec(Parts(mem[i..i + 1], [], [], [], mem[i + 1..size]))])
    else
      match Measure(mem, size, i)
      case None => None
      case Some(l) =>
        LayoutInOrder(mem, size, i);
        Prepend(Rec(PartsAt(mem, i, l)), Split(mem, size, l.end))
  }

  // ---------------------------------------------------------------- the grammar

  /** A block of bytes in which exactly the last one lacks the extension bit. */
  predicate Chain(s: seq<byte>) {
    s != [] && if |s| == 1 then s[0] < 0x80 else s[0] >= 0x80 && Chain(s[1..])
  }

  predicate GoodVif(vif: seq<byte>) {
    && vif != []
    && if HasCustomVif(vif[0]) then |vif| >= 2 && |vif| == 2 + vif[1] as int && vif[1] <= MAX_CUSTOM_VIF else |vif| == 1
  }

  /** A variable length record has an LVAR byte that gives its length, or has neither LVAR byte nor
      data in front of a byte that is no LVAR byte; other records have the length of their DIF. */
  predicate GoodData(dif: byte, lvar: seq<byte>, data: seq<byte>, following: byte) {
    if !HasVariableLength(dif) then lvar == [] && |data| == DataLength(dif)
    else if lvar == [] then data == [] && LvarLength(following) == None
    else |lvar| == 1 && LvarLength(lvar[0]) == Some(|data|)
  }

  /** The parts of an ordinary record fit together; `following` is the byte behind the record. */
  predicate GoodParts(p: Parts, following: byte) {
    && Chain(p.dib) && |p.dib| <= 1 + MAX_EXTENSIONS && p.dib[0] != IDLE_FILLER && !IsTail(p.dib[0])
    && GoodVif(p.vif)
    && (if p.vif[0] < 0x80 then p.vife == [] else Chain(p.vife) && |p.vife| <= MAX_EXTENSIONS)
    && GoodData(p.dib[0], p.lvar, p.data, following)
  }

  predicate IsTailPart(p: Parts) {
    |p.dib| == 1 && IsTail(p.dib[0]) && p == Parts(p.dib, [], [], [], p.data)
  }

  /** The pieces cover `mem[i..size)` one after the other, without gap or overlap; a manufacturer
      specific block is the last piece. */
  predicate Tiles(mem: seq<byte>, size: nat, i: nat, ps: seq<Piece>)
    requires size + 2 <= |mem| && i <= size
    decreases |ps|
  {
    if ps == [] then i == size
    else
      match ps[0]
      case Filler => i < size && mem[i] == IDLE_FILLER && Tiles(mem, size, i + 1, ps[1..])
      case Rec(p) =>
        var end := i + |WireOf(p)|;
        && end <= size && mem[i..end] == WireOf(p)
        && (if IsTailPart(p) then end == size else GoodParts(p, mem[end]))
        && Tiles(mem, size, end, ps[1..])
  }

  // ---------------------------------------------------------------- parser and grammar agree

  lemma Join(mem: seq<byte>, a: nat, b: nat, c: nat)
    requires a <= b <= c <= |mem|
    ensures mem[a..b] + mem[b..c] == mem[a..c]
  {
  }

  /** Equal wholes with equal part lengths have equal parts. */
  lemma Unjoin(mem: seq<byte>, i: nat, x: seq<byte>, y: seq<byte>)
    requires i + |x| + |y| <= |mem| && mem[i..i + |x| + |y|] == x + y
    ensures mem[i..i + |x|] == x && mem[i + |x|..i + |x| + |y|] == y
  {
    var whole := mem[i..i + |x| + |y|];
    assert whole[..|x|] == x && whole[|x|..] == y;
    assert whole[..|x|] == mem[i..i + |x|];
    assert whole[|x|..] == mem[i + |x|..i + |x| + |y|];
  }

  /** The extension loop steps over exactly the extended bytes of a chain that lies inside the data. */
  lemma {:induction false} ExtensionsAreChains(mem: seq<byte>, size: nat, i: nat, taken: nat, n: nat)
    requires size + 2 <= |mem| && taken <= MAX_EXTENSIONS && i + n < size
    ensures Extensions(mem, size, i, taken) == Some(n) <==> taken + n <= MAX_EXTENSIONS && Chain(mem[i..i + n + 1])
    decreases n
  {
    if n > 0 && taken < MAX_EXTENSIONS {
      ExtensionsAreChains(mem, size, i + 1, taken + 1, n - 1);
      assert mem[i..i + n + 1][1..] == mem[i + 1..i + n + 1];
    }
  }

  lemma DibExactly(mem: seq<byte>, size: nat, i: nat, j: nat)
    requires size + 2 <= |mem| && i < j <= size
    ensures DibEnd(mem, size, i) == Some(j) <==> Chain(mem[i..j]) && j - i <= 1 + MAX_EXTENSIONS
  {
    ExtensionsAreChains(mem, size, i, 0, j - i - 1);
  }

  lemma VifExactly(mem: seq<byte>, size: nat, j: nat, k: nat)
    requires size + 2 <= |mem| && j < k <= size
    ensures VifEnd(mem, size, j) == Some(k) <==> GoodVif(mem[j..k])
  {
    assert mem[j..k][0] == mem[j];
    assert k - j >= 2 ==> mem[j..k][1] == mem[j + 1];
  }

  lemma VifeExactly(mem: seq<byte>, size: nat, vif: byte, k: nat, v: nat)
    requires size + 2 <= |mem| && k <= v <= size
    ensures VifeEnd(mem, size, vif, k) == Some(v) <==>
              if vif < 0x80 then v == k else Chain(mem[k..v]) && v - k <= MAX_EXTENSIONS
  {
    if vif >= 0x80 && v > k {
      ExtensionsAreChains(mem, size, k, 1, v - k - 1);
    }
  }

  lemma DataExactly(mem: seq<byte>, dif: byte, v: nat, d: nat, e: nat)
    requires v <= d <= e < |mem|
    ensures DataSpan(mem, dif, v) == (d, e - d) <==> GoodData(dif, mem[v..d], mem[d..e], mem[e])
  {
    if d == v + 1 {
      assert mem[v..d][0] == mem[v];
    }
  }

  lemma MeasuredExactly(mem: seq<byte>, size: nat, i: nat, l: Layout)
    requires size + 2 <= |mem| && i < size && mem[i] != IDLE_FILLER && !IsTail(mem[i]) && Ordered(i, l, size)
    ensures Measure(mem, size, i) == Some(l) <==> GoodParts(PartsAt(mem, i, l), mem[l.end])
  {
    DibExactly(mem, size, i, l.vif);
    VifExactly(mem, size, l.vif, l.vife);
    VifeExactly(mem, size, mem[l.vif], l.vife, l.lvar);
    DataExactly(mem, mem[i], l.lvar, l.data, l.end);
    assert mem[i..l.vif][0] == mem[i] && mem[l.vif..l.vife][0] == mem[l.vif];
  }

  lemma WireAt(mem: seq<byte>, i: nat, l: Layout)
    requires Ordered(i, l, |mem|)
    ensures WireOf(PartsAt(mem, i, l)) == mem[i..l.end]
  {
    Join(mem, i, l.vif, l.vife);
    Join(mem, i, l.vife, l.lvar);
    Join(mem, i, l.lvar, l.data);
    Join(mem, i, l.data, l.end);
  }

  /** The layout of given parts at position `i`. */
  function LayoutOf(p: Parts, i: nat): Layout {
    var j := i + |p.dib|;
    var k := j + |p.vif|;
    var v := k + |p.vife|;
    var d := v + |p.lvar|;
    Layout(j, k, v, d, d + |p.data|)
  }

  lemma PartsAreFound(mem: seq<byte>, i: nat, p: Parts)
    requires i + |WireOf(p)| <= |mem| && mem[i..i + |WireOf(p)|] == WireOf(p)
    requires p.dib != [] && p.vif != []
    ensures Ordered(i, LayoutOf(p, i), |mem|) && PartsAt(mem, i, LayoutOf(p, i)) == p
  {
    Unjoin(mem, i, p.dib + p.vif + p.vife + p.lvar, p.data);
    Unjoin(mem, i, p.dib + p.vif + p.vife, p.lvar);
    Unjoin(mem, i, p.dib + p.vif, p.vife);
    Unjoin(mem, i, p.dib, p.vif);
  }

  lemma GoodIsMeasured(mem: seq<byte>, size: nat, i: nat, p: Parts)
    requires size + 2 <= |mem| && i + |WireOf(p)| <= size && mem[i..i + |WireOf(p)|] == WireOf(p)
    requires GoodParts(p, mem[i + |WireOf(p)|])
    ensures i < size && mem[i] == p.dib[0] && mem[i] != IDLE_FILLER && !IsTail(mem[i])
    ensures Measure(mem, size, i) == Some(LayoutOf(p, i))
    ensures Ordered(i, LayoutOf(p, i), |mem|) && PartsAt(mem, i, LayoutOf(p, i)) == p
  {
    PartsAreFound(mem, i, p);
    assert mem[i] == mem[i..i + |p.dib|][0];
    MeasuredExactly(mem, size, i, LayoutOf(p, i));
  }

  lemma TailExactly(mem: seq<byte>, size: nat, i: nat, p: Parts)
    requires i < size <= |mem|
    ensures IsTail(mem[i]) && p == Parts(mem[i..i + 1], [], [], [], mem[i + 1..size]) <==>
              IsTailPart(p) && i + |WireOf(p)| == size && mem[i..size] == WireOf(p)
  {
    Join(mem, i, i + 1, size);
    if IsTailPart(p) && i + |WireOf(p)| == size && mem[i..size] == WireOf(p) {
      Unjoin(mem, i, p.dib, p.data);
      assert mem[i] == mem[i..i + 1][0];
    }
  }

  lemma {:induction false} SplitTiles(mem: seq<byte>, size: nat, i: nat, ps: seq<Piece>)
    requires size + 2 <= |mem| && i <= size
    requires Split(mem, size, i) == Some(ps)
    ensures Tiles(mem, size, i, ps)
    decreases size - i, 1
  {
    if i < size {
      if mem[i] == IDLE_FILLER {
        SplitTiles(mem, size, i + 1, ps[1..]);
      } else if IsTail(mem[i]) {
        TailExactly(mem, size, i, ps[0].parts);
      } else {
        LayoutInOrder(mem, size, i);
        MeasuredTiles(mem, size, i, ps, Measure(mem, size, i).value);
      }
    }
  }

  lemma {:induction false} MeasuredTiles(mem: seq<byte>, size: nat, i: nat, ps: seq<Piece>, l: Layout)
    requires size + 2 <= |mem| && i < size && mem[i] != IDLE_FILLER && !IsTail(mem[i])
    requires Measure(mem, size, i) == Some(l) && Ordered(i, l, size)
    requires ps != [] && ps[0] == Rec(PartsAt(mem, i, l)) && Split(mem, size, l.end) == Some(ps[1..])
    ensures Tiles(mem, size, i, ps)
    decreases size - i, 0
  {
    SplitTiles(mem, size, l.end, ps[1..]);
    LayoutIsGood(mem, size, i, l, PartsAt(mem, i, l));
    RecordTiles(mem, size, i, ps, PartsAt(mem, i, l), l.end);
  }

  lemma RecordTiles(mem: seq<byte>, size: nat, i: nat, ps: seq<Piece>, p: Parts, end: nat)
    requires size + 2 <= |mem| && ps != [] && ps[0] == Rec(p) && end == i + |WireOf(p)| <= size
    requires mem[i..end] == WireOf(p) && GoodParts(p, mem[end]) && !IsTailPart(p) && Tiles(mem, size, end, ps[1..])
    ensures Tiles(mem, size, i, ps)
  {
  }

  lemma LayoutIsGood(mem: seq<byte>, size: nat, i: nat, l: Layout, p: Parts)
    requires size + 2 <= |mem| && i < size && mem[i] != IDLE_FILLER && !IsTail(mem[i])
    requires Measure(mem, size, i) == Some(l) && Ordered(i, l, size) && p == PartsAt(mem, i, l)
    ensures i + |WireOf(p)| == l.end && mem[i..l.end] == WireOf(p) && GoodParts(p, mem[l.end]) && !IsTailPart(p)
  {
    MeasuredExactly(mem, size, i, l);
    WireAt(mem, i, l);
  }

  lemma {:induction false} TilingIsFound(mem: seq<byte>, size: nat, i: nat, ps: seq<Piece>)
    requires size + 2 <= |mem| && i <= size && Tiles(mem, size, i, ps)
    ensures Split(mem, size, i) == Some(ps)
    decreases |ps|, 2
  {
    if ps == [] {
    } else if ps[0].Filler? {
      FillerIsFound(mem, size, i, ps);
    } else if IsTailPart(ps[0].parts) {
      TailIsFound(mem, size, i, ps, ps[0].parts);
    } else {
      RecordIsFound(mem, size, i, ps, ps[0].parts, i + |WireOf(ps[0].parts)|);
    }
  }

  lemma {:induction false} FillerIsFound(mem: seq<byte>, size: nat, i: nat, ps: seq<Piece>)
    requires size + 2 <= |mem| && i < size && ps != [] && ps[0].Filler? && mem[i] == IDLE_FILLER
    requires Tiles(mem, size, i + 1, ps[1..])
    ensures Split(mem, size, i) == Some(ps)
    decreases |ps|, 0
  {
    TilingIsFound(mem, size, i + 1, ps[1..]);
    assert ps == [Filler] + ps[1..];
  }

  lemma TailIsFound(mem: seq<byte>, size: nat, i: nat, ps: seq<Piece>, p: Parts)
    requires size + 2 <= |mem| && i <= size && ps != [] && ps[0] == Rec(p) && Tiles(mem, size, i, ps) && IsTailPart(p)
    ensures Split(mem, size, i) == Some(ps)
  {
    TailExactly(mem, size, i, p);
    assert ps[1..] == [] && ps == [Rec(p)];
  }

  lemma {:induction false} RecordIsFound(mem: seq<byte>, size: nat, i: nat, ps: seq<Piece>, p: Parts, end: nat)
    requires size + 2 <= |mem| && i <= size && ps != [] && ps[0] == Rec(p) && end == i + |WireOf(p)| <= size
    requires mem[i..end] == WireOf(p) && GoodParts(p, mem[end]) && Tiles(mem, size, end, ps[1..])
    ensures Split(mem, size, i) == Some(ps)
    decreases |ps|, 1
  {
    var l := LayoutIsMeasured(mem, size, i, p, end);
    MeasuredSplits(mem, size, i, ps, l);
  }

  lemma LayoutIsMeasured(mem: seq<byte>, size: nat, i: nat, p: Parts, end: nat) returns (l: Layout)
    requires size + 2 <= |mem| && end == i + |WireOf(p)| <= size && mem[i..end] == WireOf(p) && GoodParts(p, mem[end])
    ensures i < size && mem[i] != IDLE_FILLER && !IsTail(mem[i])
    ensures Measure(mem, size, i) == Some(l) && Ordered(i, l, size) && PartsAt(mem, i, l) == p && l.end == end
  {
    l := LayoutOf(p, i);
    GoodIsMeasured(mem, size, i, p);
  }

  lemma {:induction false} MeasuredSplits(mem: seq<byte>, size: nat, i: nat, ps: seq<Piece>, l: Layout)
    requires size + 2 <= |mem| && i < size && mem[i] != IDLE_FILLER && !IsTail(mem[i])
    requires Measure(mem, size, i) == Some(l) && Ordered(i, l, size)
    requires ps != [] && ps[0] == Rec(PartsAt(mem, i, l)) && Tiles(mem, size, l.end, ps[1..])
    ensures Split(mem, size, i) == Some(ps)
    decreases |ps|, 0
  {
    TilingIsFound(mem, size, l.end, ps[1..]);
    assert ps == [ps[0]] + ps[1..];
  }

  /** The parser accepts exactly the data that tiles, and returns exactly the tiling: no gap, no
      overlap, wire order, and at most one manufacturer specific block, at the end. */
  lemma SplitIsTheTiling(mem: seq<byte>, size: nat, i: nat, ps: seq<Piece>)
    requires size + 2 <= |mem| && i <= size
    ensures Split(mem, size, i) == Some(ps) <==> Tiles(mem, size, i, ps)
  {
    if Split(mem, size, i) == Some(ps) {
      SplitTiles(mem, size, i, ps);
    }
    if Tiles(mem, size, i, ps) {
      TilingIsFound(mem, size, i, ps);
    }
  }
}
