/** What a reply means for a readout, in terms of its bytes. */
module ReplyContent {
  import opened Bytes
  import opened FrameBuffer
  import opened Records
  import opened RecordLaws
  import opened RecordGrammar
  import opened SlaveLink
  import Readout

  /** The last record is a manufacturer specific block with DIF 1F. */
  predicate Announces(ps: seq<Piece>) {
    ps != [] && ps[|ps| - 1].Rec? && ps[|ps| - 1].parts.dib == [0x1F]
  }

  lemma LastAnnounces(mem: seq<byte>, size: nat, i: nat, ps: seq<Piece>, last: nat)
    requires size + 2 <= |mem| && i <= size && Tiles(mem, size, i, ps) && last == |ps| - 1
    ensures AsksForMore(ps[last]) <==> Announces(ps)
  {
    if ps[last].Rec? {
      RecordWidths(mem, size, i, ps, last);
      var dib := ps[last].parts.dib;
      if |dib| == 1 {
        assert dib == [dib[0]];
      }
    }
  }

  lemma AnnouncesExactly(mem: seq<byte>, size: nat, ps: seq<Piece>)
    requires HEADER_SIZE <= size && size + 2 <= |mem| && Tiles(mem, size, HEADER_SIZE, ps)
    ensures Split(mem, size, HEADER_SIZE) == Some(ps) && (MoreFollow(ps) <==> Announces(ps))
  {
    TilingIsFound(mem, size, HEADER_SIZE, ps);
    PiecesCoverTheData(mem, size, HEADER_SIZE, ps);
    if ps != [] {
      LastAnnounces(mem, size, HEADER_SIZE, ps, |ps| - 1);
    }
  }

  /** A frame from a slave (bit 6 of the control byte cleared) announces more exactly if it has a variable
      data structure whose records cover the data behind the header and end with DIF 1F. It is the last
      one exactly if it reports an error, has a fixed data structure of 16 bytes, or has a variable data
      structure that is covered and does not end so. Anything else does not parse. */
  lemma ContentExactly(im: Image)
    requires |im.fields.data| + 2 <= |im.mem|
    ensures
      var size, ci, response := |im.fields.data|, im.fields.controlInformation, im.fields.control / 0x40 % 2 == 0;
      && (ContentOfImage(im) == Readout.More <==>
            response && ci == 0x72 && size >= 12 && exists ps :: Tiles(im.mem, size, 12, ps) && Announces(ps))
      && (ContentOfImage(im) == Readout.Last <==>
            response && (ci == 0x70 || (ci == 0x73 && size == 16)
                         || (ci == 0x72 && size >= 12 && exists ps :: Tiles(im.mem, size, 12, ps) && !Announces(ps))))
  {
    var size := |im.fields.data|;
    if size >= HEADER_SIZE {
      forall ps | Tiles(im.mem, size, 12, ps)
        ensures Split(im.mem, size, HEADER_SIZE) == Some(ps) && (MoreFollow(ps) <==> Announces(ps))
      {
        AnnouncesExactly(im.mem, size, ps);
      }
      if Split(im.mem, size, HEADER_SIZE).Some? {
        SplitTiles(im.mem, size, HEADER_SIZE, Split(im.mem, size, HEADER_SIZE).value);
      }
    }
  }

  /** The same for a reply telegram of a slave. */
  lemma ReplyContentExactly(t: seq<byte>)
    requires GoodReply(t)
    ensures
      var data := t[7..|t| - 2];
      var size := |data|;
      && (ContentOf(t) == Readout.More <==>
            && t[4] / 0x40 % 2 == 0 && t[6] == 0x72 && size >= 12
            && exists ps :: Tiles(data + [0, 0], size, 12, ps) && Announces(ps))
      && (ContentOf(t) == Readout.Last <==>
            t[4] / 0x40 % 2 == 0 && (t[6] == 0x70 || (t[6] == 0x73 && size == 16)
                                     || (t[6] == 0x72 && size >= 12
                                         && exists ps :: Tiles(data + [0, 0], size, 12, ps) && !Announces(ps))))
  {
    var g := ReplyFields(t);
    assert g.data == t[7..|t| - 2] && g.control == t[4] && g.controlInformation == t[6];
    ContentExactly(Image(g, Padded(g.data)));
  }
}
