/**
  What the `.blend` layout guarantees about a decoded file: the header and
  the file blocks re-encode to exactly the bytes they were read from (the
  blocks tile the stream after the header), encoding well-formed blocks and
  reading them back gives the same blocks, and the schema block is found by
  position.
*/
module BlendFacts {
  import opened Wrappers
  import opened BlendBytes
  import opened BlendLayout

  // ---------------------------------------------------------------------------
  // Byte images of blocks

  /** What every block read with pointer size `psize` satisfies. */
  predicate WellFormedBlock(b: FileBlock, psize: nat)
  {
    && |b.code| == 4
    && |b.memAddr| == psize
    && b.lenBody == |b.body| < 0x1_0000_0000
    && b.sdnaIndex < 0x1_0000_0000
    && b.count < 0x1_0000_0000
  }

  predicate AllWellFormed(bs: seq<FileBlock>, psize: nat)
  {
    bs == [] || (WellFormedBlock(bs[0], psize) && AllWellFormed(bs[1..], psize))
  }

  function BlockImage(b: FileBlock): seq<byte>
    requires b.lenBody < 0x1_0000_0000 && b.sdnaIndex < 0x1_0000_0000 && b.count < 0x1_0000_0000
  {
    b.code + Le4(b.lenBody) + b.memAddr + Le4(b.sdnaIndex) + Le4(b.count) + b.body
  }

  function BlocksImage(bs: seq<FileBlock>, psize: nat): seq<byte>
    requires AllWellFormed(bs, psize)
  {
    if bs == [] then [] else BlockImage(bs[0]) + BlocksImage(bs[1..], psize)
  }

  // ---------------------------------------------------------------------------
  // Helpers on slices and integers

  /** A piece `x` at offset `k` of an image found at `pos` is found at `pos + k`. */
  lemma Piece(data: seq<byte>, pos: nat, img: seq<byte>, k: nat, x: seq<byte>)
    requires pos + |img| <= |data| && data[pos..pos + |img|] == img
    requires k + |x| <= |img| && img[k..k + |x|] == x
    ensures data[pos + k..pos + k + |x|] == x
  {
    forall j | 0 <= j < |x|
      ensures data[pos + k..pos + k + |x|][j] == x[j]
    {
      assert data[pos + k + j] == data[pos..pos + |img|][k + j] == img[k..k + |x|][j];
    }
  }

  // ---------------------------------------------------------------------------
  // Header

  /** The header occupies the first twelve bytes, verbatim. */
  lemma HeaderImageOf(data: seq<byte>)
    requires ReadHeader(data).Ok?
    ensures |ReadHeader(data).value.version| == 3
    ensures data[..HEADER_SIZE] == HeaderImage(ReadHeader(data).value)
  {
  }

  /** A header with a three-byte version reads back from its image. */
  lemma HeaderOfImage(h: Header, rest: seq<byte>)
    requires |h.version| == 3
    ensures ReadHeader(HeaderImage(h) + rest) == Ok(h, HEADER_SIZE)
  {
    var data := HeaderImage(h) + rest;
    assert data[..7] == BLENDER;
    assert data[9..12] == h.version;
  }

  // ---------------------------------------------------------------------------
  // One block

  /** A decoded block is well formed and occupies exactly its image: code,
      length, address, index and count headers, then `len_body` body bytes. */
  lemma FileBlockImageOf(data: seq<byte>, pos: nat, psize: nat)
    requires psize == 4 || psize == 8
    requires ReadFileBlock(data, pos, psize).Ok?
    ensures var r := ReadFileBlock(data, pos, psize);
      && WellFormedBlock(r.value, psize)
      && data[pos..r.next] == BlockImage(r.value)
  {
    var r := ReadFileBlock(data, pos, psize);
    var b := r.value;
    FileBlockFields(data, pos, psize);
    U4Image(data, pos + 4);
    U4Image(data, pos + 8 + psize);
    U4Image(data, pos + 12 + psize);
    assert b.lenBody < 0x1_0000_0000 && b.sdnaIndex < 0x1_0000_0000 && b.count < 0x1_0000_0000;
    BlockImageOfPieces(data, pos, psize, b);
  }

  /** Where each field of a decoded block was read from. */
  lemma FileBlockFields(data: seq<byte>, pos: nat, psize: nat)
    requires psize == 4 || psize == 8
    requires ReadFileBlock(data, pos, psize).Ok?
    ensures var r := ReadFileBlock(data, pos, psize); var b := r.value;
      && r.next == pos + 16 + psize + b.lenBody <= |data|
      && b.code == data[pos..pos + 4]
      && U4(data, pos + 4) == Ok(b.lenBody, pos + 8)
      && b.memAddr == data[pos + 8..pos + 8 + psize]
      && U4(data, pos + 8 + psize) == Ok(b.sdnaIndex, pos + 12 + psize)
      && U4(data, pos + 12 + psize) == Ok(b.count, pos + 16 + psize)
      && b.body == data[pos + 16 + psize..r.next]
  {
  }

  /** Fields found one after another at `pos` make up the block's image. */
  lemma BlockImageOfPieces(data: seq<byte>, pos: nat, psize: nat, b: FileBlock)
    requires b.lenBody < 0x1_0000_0000 && b.sdnaIndex < 0x1_0000_0000 && b.count < 0x1_0000_0000
    requires |b.memAddr| == psize && pos + 16 + psize + b.lenBody <= |data|
    requires data[pos..pos + 4] == b.code
    requires data[pos + 4..pos + 8] == Le4(b.lenBody)
    requires data[pos + 8..pos + 8 + psize] == b.memAddr
    requires data[pos + 8 + psize..pos + 12 + psize] == Le4(b.sdnaIndex)
    requires data[pos + 12 + psize..pos + 16 + psize] == Le4(b.count)
    requires data[pos + 16 + psize..pos + 16 + psize + b.lenBody] == b.body
    ensures data[pos..pos + 16 + psize + b.lenBody] == BlockImage(b)
  {
    var end := pos + 16 + psize + b.lenBody;
    SliceSplit(data, pos, pos + 4, pos + 8);
    SliceSplit(data, pos, pos + 8, pos + 8 + psize);
    SliceSplit(data, pos, pos + 8 + psize, pos + 12 + psize);
    SliceSplit(data, pos, pos + 12 + psize, pos + 16 + psize);
    SliceSplit(data, pos, pos + 16 + psize, end);
  }

  /** Where the fields of a block lie in its image. */
  lemma BlockImageFields(b: FileBlock, psize: nat)
    requires WellFormedBlock(b, psize)
    ensures var img := BlockImage(b);
      && |img| == BlockHeaderSize(psize) + b.lenBody
      && img[..4] == b.code
      && img[4..8] == Le4(b.lenBody)
      && img[8..8 + psize] == b.memAddr
      && img[8 + psize..12 + psize] == Le4(b.sdnaIndex)
      && img[12 + psize..16 + psize] == Le4(b.count)
      && img[16 + psize..] == b.body
  {
  }

  /** A well-formed block reads back from its image. */
  lemma FileBlockOfImage(data: seq<byte>, pos: nat, psize: nat, b: FileBlock)
    requires psize == 4 || psize == 8
    requires WellFormedBlock(b, psize)
    requires pos + |BlockImage(b)| <= |data| && data[pos..pos + |BlockImage(b)|] == BlockImage(b)
    ensures ReadFileBlock(data, pos, psize) == Ok(b, pos + |BlockImage(b)|)
  {
    var img := BlockImage(b);
    BlockImageFields(b, psize);
    Piece(data, pos, img, 0, b.code);
    Piece(data, pos, img, 4, Le4(b.lenBody));
    Piece(data, pos, img, 8, b.memAddr);
    Piece(data, pos, img, 8 + psize, Le4(b.sdnaIndex));
    Piece(data, pos, img, 12 + psize, Le4(b.count));
    Piece(data, pos, img, 16 + psize, b.body);
    U4At(data, pos + 4, b.lenBody);
    U4At(data, pos + 8 + psize, b.sdnaIndex);
    U4At(data, pos + 12 + psize, b.count);
    ReadFileBlockOfFields(data, pos, psize, b);
  }

  /** A block whose fields are found one after another at `pos` is read there. */
  lemma ReadFileBlockOfFields(data: seq<byte>, pos: nat, psize: nat, b: FileBlock)
    requires psize == 4 || psize == 8
    requires pos + 16 + psize + b.lenBody <= |data|
    requires |b.code| == 4 && data[pos..pos + 4] == b.code
    requires U4(data, pos + 4) == Ok(b.lenBody, pos + 8)
    requires |b.memAddr| == psize && data[pos + 8..pos + 8 + psize] == b.memAddr
    requires U4(data, pos + 8 + psize) == Ok(b.sdnaIndex, pos + 12 + psize)
    requires U4(data, pos + 12 + psize) == Ok(b.count, pos + 16 + psize)
    requires |b.body| == b.lenBody && data[pos + 16 + psize..pos + 16 + psize + b.lenBody] == b.body
    ensures ReadFileBlock(data, pos, psize) == Ok(b, pos + 16 + psize + b.lenBody)
  {
    assert Bytes(data, pos, 4) == Ok(b.code, pos + 4);
    assert Bytes(data, pos + 8, psize) == Ok(b.memAddr, pos + 8 + psize);
    assert Bytes(data, pos + 16 + psize, b.lenBody) == Ok(b.body, pos + 16 + psize + b.lenBody);
  }

  // ---------------------------------------------------------------------------
  // The block stream

  /** `repeat: eos`: the decoded blocks are well formed, end exactly at the
      end of the stream, and their images laid end to end are the stream. */
  lemma {:induction false} BlocksTile(data: seq<byte>, pos: nat, psize: nat)
    requires psize == 4 || psize == 8
    requires pos <= |data| && ReadBlocks(data, pos, psize).Ok?
    ensures var r := ReadBlocks(data, pos, psize);
      && r.next == |data|
      && AllWellFormed(r.value, psize)
      && data[pos..] == BlocksImage(r.value, psize)
    decreases |data| - pos
  {
    if pos < |data| {
      ReadBlocksUncons(data, pos, psize);
      var b := ReadFileBlock(data, pos, psize);
      FileBlockImageOf(data, pos, psize);
      BlocksTile(data, b.next, psize);
      var rest := ReadBlocks(data, b.next, psize);
      TileCons(data, pos, b.next, psize, b.value, rest.value);
    }
  }

  /** A block image followed by the images of the rest tiles the suffix. */
  lemma TileCons(data: seq<byte>, pos: nat, q: nat, psize: nat, b: FileBlock, rest: seq<FileBlock>)
    requires pos <= q <= |data|
    requires WellFormedBlock(b, psize) && data[pos..q] == BlockImage(b)
    requires AllWellFormed(rest, psize) && data[q..] == BlocksImage(rest, psize)
    ensures AllWellFormed([b] + rest, psize) && data[pos..] == BlocksImage([b] + rest, psize)
  {
    BlocksImageCons(b, rest, psize);
    assert data[pos..] == data[pos..q] + data[q..];
  }

  lemma BlocksImageCons(b: FileBlock, rest: seq<FileBlock>, psize: nat)
    requires WellFormedBlock(b, psize) && AllWellFormed(rest, psize)
    ensures AllWellFormed([b] + rest, psize)
    ensures BlocksImage([b] + rest, psize) == BlockImage(b) + BlocksImage(rest, psize)
  {
    assert ([b] + rest)[1..] == rest;
  }

  /** Well-formed blocks laid end to end read back as the same blocks. */
  lemma {:induction false} BlocksOfImage(data: seq<byte>, pos: nat, psize: nat, bs: seq<FileBlock>)
    requires psize == 4 || psize == 8
    requires AllWellFormed(bs, psize)
    requires pos <= |data| && data[pos..] == BlocksImage(bs, psize)
    ensures ReadBlocks(data, pos, psize) == Ok(bs, |data|)
    decreases bs
  {
    if bs != [] {
      var b, rest := bs[0], bs[1..];
      assert [b] + rest == bs;
      BlocksImageUncons(bs, psize);
      var img := BlockImage(b);
      var next := pos + |img|;
      SuffixSplit(data, pos, img, BlocksImage(rest, psize));
      FileBlockOfImage(data, pos, psize, b);
      BlocksOfImage(data, next, psize, rest);
      ReadBlocksCons(data, pos, psize, b, next, rest, |data|);
    } else {
      assert |data[pos..]| == 0;
    }
  }

  lemma BlocksImageUncons(bs: seq<FileBlock>, psize: nat)
    requires bs != [] && AllWellFormed(bs, psize)
    ensures WellFormedBlock(bs[0], psize) && AllWellFormed(bs[1..], psize)
    ensures BlocksImage(bs, psize) == BlockImage(bs[0]) + BlocksImage(bs[1..], psize)
  {
  }

  lemma SuffixSplit(data: seq<byte>, pos: nat, a: seq<byte>, b: seq<byte>)
    requires pos <= |data| && data[pos..] == a + b
    ensures pos + |a| <= |data| && data[pos..pos + |a|] == a && data[pos + |a|..] == b
  {
    assert data[pos..pos + |a|] == data[pos..][..|a|];
    assert data[pos + |a|..] == data[pos..][|a|..];
  }

  /** Every block of a well-formed sequence is well formed. */
  lemma {:induction false} WellFormedAt(bs: seq<FileBlock>, psize: nat, i: nat)
    requires AllWellFormed(bs, psize) && i < |bs|
    ensures WellFormedBlock(bs[i], psize)
    decreases i
  {
    if i > 0 {
      WellFormedAt(bs[1..], psize, i - 1);
      assert bs[1..][i - 1] == bs[i];
    }
  }

  /** A block followed by the blocks after it is the block stream. */
  lemma ReadBlocksCons(data: seq<byte>, pos: nat, psize: nat, b: FileBlock, q: nat, rest: seq<FileBlock>, end: nat)
    requires psize == 4 || psize == 8
    requires pos < |data| && ReadFileBlock(data, pos, psize) == Ok(b, q)
    requires ReadBlocks(data, q, psize) == Ok(rest, end)
    ensures ReadBlocks(data, pos, psize) == Ok([b] + rest, end)
  {
  }

  /** A block stream that is not empty starts with a block. */
  lemma ReadBlocksUncons(data: seq<byte>, pos: nat, psize: nat)
    requires psize == 4 || psize == 8
    requires pos < |data| && ReadBlocks(data, pos, psize).Ok?
    ensures var b := ReadFileBlock(data, pos, psize);
      && b.Ok? && ReadBlocks(data, b.next, psize).Ok?
      && ReadBlocks(data, pos, psize) == Ok([b.value] + ReadBlocks(data, b.next, psize).value, ReadBlocks(data, b.next, psize).next)
  {
  }

  // ---------------------------------------------------------------------------
  // The whole file

  /** A decoded file is exactly its header image followed by its block images. */
  lemma BlendFileImageOf(data: seq<byte>)
    requires ReadBlendFile(data).Success?
    ensures var f := ReadBlendFile(data).value;
      && |f.hdr.version| == 3
      && AllWellFormed(f.blocks, Psize(f.hdr))
      && data == HeaderImage(f.hdr) + BlocksImage(f.blocks, Psize(f.hdr))
  {
    var f := ReadBlendFile(data).value;
    BlendFileParts(data);
    HeaderImageOf(data);
    BlocksTile(data, HEADER_SIZE, Psize(f.hdr));
    HeadTail(data, HEADER_SIZE, HeaderImage(f.hdr), BlocksImage(f.blocks, Psize(f.hdr)));
  }

  /** A decoded file is its header, the block stream after it, and the
      bodies of those blocks. */
  lemma BlendFileParts(data: seq<byte>)
    requires ReadBlendFile(data).Success?
    ensures var h := ReadHeader(data);
      && h.Ok? && h.next == HEADER_SIZE
      && ReadBlocks(data, HEADER_SIZE, Psize(h.value)).Ok?
      && var blocks := ReadBlocks(data, HEADER_SIZE, Psize(h.value)).value;
      && ReadBodies(blocks).Success?
      && ReadBlendFile(data).value == BlendFile(h.value, blocks, ReadBodies(blocks).value)
  {
  }

  lemma HeadTail(data: seq<byte>, k: nat, a: seq<byte>, b: seq<byte>)
    requires k <= |data| && data[..k] == a && data[k..] == b
    ensures data == a + b
  {
    assert data == data[..k] + data[k..];
  }

  /** Encoding a header and well-formed blocks whose bodies decode, and
      decoding the bytes, gives them back: decoding loses nothing. */
  lemma BlendFileOfImage(f: BlendFile)
    requires |f.hdr.version| == 3 && AllWellFormed(f.blocks, Psize(f.hdr))
    requires ReadBodies(f.blocks) == Success(f.bodies)
    ensures var data := HeaderImage(f.hdr) + BlocksImage(f.blocks, Psize(f.hdr));
      ReadBlendFile(data) == Success(f)
  {
    var rest := BlocksImage(f.blocks, Psize(f.hdr));
    var data := HeaderImage(f.hdr) + rest;
    HeaderOfImage(f.hdr, rest);
    assert data[HEADER_SIZE..] == rest;
    BlocksOfImage(data, HEADER_SIZE, Psize(f.hdr), f.blocks);
  }

  // ---------------------------------------------------------------------------
  // The schema block

  /** `sdna_structs` exists exactly when there are at least two blocks and
      the one before the last has code `DNA1`: the schema is found by
      position, and the tag there is checked. */
  lemma SchemaBlockByPosition(data: seq<byte>)
    requires ReadBlendFile(data).Success?
    ensures var f := ReadBlendFile(data).value;
      SdnaStructs(f).Success? <==> |f.blocks| >= 2 && f.blocks[|f.blocks| - 2].code == DNA1
    ensures var f := ReadBlendFile(data).value;
      SdnaStructs(f).Success? ==>
        && ReadDna1Body(f.blocks[|f.blocks| - 2].body).Ok?
        && SdnaStructs(f).value == ReadDna1Body(f.blocks[|f.blocks| - 2].body).value.structs
  {
    var f := ReadBlendFile(data).value;
    if |f.blocks| >= 2 {
      assert ReadBody(f.blocks[|f.blocks| - 2]) == Success(f.bodies[|f.blocks| - 2]);
    }
  }
}
