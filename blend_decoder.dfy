/**
  A cursor-based decoder for the `.blend` layout. Each method reads from an
  immutable byte stream, moves a cursor over it, and fills the repeated
  tables (names, types, lengths, fields, structs, blocks) with loops; each
  is proved to produce exactly what the corresponding layout function of
  `BlendLayout` describes, errors included.
*/
module BlendDecoder {
  import opened Wrappers
  import opened BlendBytes
  import opened BlendLayout

  /** Prepending in two steps is prepending the concatenation. */
  lemma PrependTwice<T>(acc: seq<T>, xs: seq<T>, r: Parse<seq<T>>)
    ensures Prepend(acc, Prepend(xs, r)) == Prepend(acc + xs, r)
  {
    if r.Ok? {
      assert acc + (xs + r.value) == (acc + xs) + r.value;
    }
  }

  lemma PrependNothing<T>(r: Parse<seq<T>>)
    ensures Prepend([], r) == r
  {
    if r.Ok? {
      assert [] + r.value == r.value;
    }
  }

  /** One iteration of a table loop: the item at the cursor either fails the
      whole table or joins the items already read. */
  lemma TableStep<T>(item: (seq<byte>, nat) -> Parse<T>, data: seq<byte>, pos: nat, n: nat,
                     i: nat, items: seq<T>, cursor: nat, x: Parse<T>)
    requires i < n && x == item(data, cursor)
    requires Repeat(item, data, pos, n) == Prepend(items, Repeat(item, data, cursor, n - i))
    ensures x.Fail? ==> Repeat(item, data, pos, n) == Fail(x.error)
    ensures x.Ok? ==> Repeat(item, data, pos, n) == Prepend(items + [x.value], Repeat(item, data, x.next, n - i - 1))
  {
    RepeatStep(item, data, cursor, n - i);
    if x.Ok? {
      PrependTwice(items, [x.value], Repeat(item, data, x.next, n - i - 1));
    }
  }

  /** `repeat-expr: n` of a fixed item reader: `n` items read one after
      another, stopping at the first item that fails. */
  method DecodeTable<T>(item: (seq<byte>, nat) -> Parse<T>, data: seq<byte>, pos: nat, n: nat)
    returns (r: Parse<seq<T>>)
    ensures r == Repeat(item, data, pos, n)
  {
    var items: seq<T> := [];
    var cursor := pos;
    var i := 0;
    PrependNothing(Repeat(item, data, pos, n));
    while i < n
      invariant i <= n
      invariant Repeat(item, data, pos, n) == Prepend(items, Repeat(item, data, cursor, n - i))
    {
      var x := item(data, cursor);
      TableStep(item, data, pos, n, i, items, cursor, x);
      if x.Fail? {
        return Fail(x.error);
      }
      items := items + [x.value];
      cursor := x.next;
      i := i + 1;
    }
    assert items + [] == items;
    r := Ok(items, cursor);
  }

  /** A `dna_struct`: its type index, its field count, then its fields. */
  method DecodeStruct(data: seq<byte>, pos: nat) returns (r: Parse<DnaStruct>)
    ensures r == ReadStruct(data, pos)
  {
    var idxType := U2(data, pos);
    if idxType.Fail? {
      return Fail(idxType.error);
    }
    var numFields := U2(data, idxType.next);
    if numFields.Fail? {
      return Fail(numFields.error);
    }
    var fields := DecodeTable(ReadField, data, numFields.next, numFields.value);
    if fields.Fail? {
      return Fail(fields.error);
    }
    FieldTableBytes(data, numFields.next, numFields.value);
    r := Ok(DnaStruct(idxType.value, numFields.value, fields.value), fields.next);
  }

  method DecodeNames(body: seq<byte>, pos: nat) returns (r: Parse<NameSection>)
    ensures r == ReadNames(body, pos)
  {
    var magic := Contents(body, pos, NAME);
    if magic.Fail? {
      return Fail(magic.error);
    }
    var num := U4(body, magic.next);
    if num.Fail? {
      return Fail(num.error);
    }
    var names := DecodeTable(Strz, body, num.next, num.value);
    if names.Fail? {
      return Fail(names.error);
    }
    StrzTableBytes(body, num.next, num.value);
    r := Ok(NameSection(num.value, names.value), names.next);
  }

  method DecodeTypes(body: seq<byte>, pos: nat) returns (r: Parse<TypeSection>)
    ensures r == ReadTypes(body, pos)
  {
    var padding := Padding(body, pos);
    if padding.Fail? {
      return Fail(padding.error);
    }
    var magic := Contents(body, padding.next, TYPE);
    if magic.Fail? {
      return Fail(magic.error);
    }
    var num := U4(body, magic.next);
    if num.Fail? {
      return Fail(num.error);
    }
    var types := DecodeTable(Strz, body, num.next, num.value);
    if types.Fail? {
      return Fail(types.error);
    }
    StrzTableBytes(body, num.next, num.value);
    r := Ok(TypeSection(padding.value, num.value, types.value), types.next);
  }

  method DecodeLengths(body: seq<byte>, pos: nat, numTypes: nat) returns (r: Parse<LengthSection>)
    ensures r == ReadLengths(body, pos, numTypes)
  {
    var padding := Padding(body, pos);
    if padding.Fail? {
      return Fail(padding.error);
    }
    var magic := Contents(body, padding.next, TLEN);
    if magic.Fail? {
      return Fail(magic.error);
    }
    var lengths := DecodeTable(U2, body, magic.next, numTypes);
    if lengths.Fail? {
      return Fail(lengths.error);
    }
    U2TableBytes(body, magic.next, numTypes);
    r := Ok(LengthSection(padding.value, lengths.value), lengths.next);
  }

  method DecodeStructs(body: seq<byte>, pos: nat) returns (r: Parse<StructSection>)
    ensures r == ReadStructs(body, pos)
  {
    var padding := Padding(body, pos);
    if padding.Fail? {
      return Fail(padding.error);
    }
    var magic := Contents(body, padding.next, STRC);
    if magic.Fail? {
      return Fail(magic.error);
    }
    var num := U4(body, magic.next);
    if num.Fail? {
      return Fail(num.error);
    }
    var structs := DecodeTable(ReadStruct, body, num.next, num.value);
    if structs.Fail? {
      return Fail(structs.error);
    }
    StructTableBytes(body, num.next, num.value);
    r := Ok(StructSection(padding.value, num.value, structs.value), structs.next);
  }

  /** A `dna1_body`, decoded from the start of a block's body. */
  method DecodeDna1Body(body: seq<byte>) returns (r: Parse<Dna1Body>)
    ensures r == ReadDna1Body(body)
  {
    var id := Contents(body, 0, SDNA);
    if id.Fail? {
      return Fail(id.error);
    }
    var n := DecodeNames(body, id.next);
    if n.Fail? {
      return Fail(n.error);
    }
    var t := DecodeTypes(body, n.next);
    if t.Fail? {
      return Fail(t.error);
    }
    var l := DecodeLengths(body, t.next, t.value.numTypes);
    if l.Fail? {
      return Fail(l.error);
    }
    var s := DecodeStructs(body, l.next);
    if s.Fail? {
      return Fail(s.error);
    }
    r := Ok(Dna1Body(n.value.numNames, n.value.names, t.value.padding1, t.value.numTypes, t.value.types,
                     l.value.padding2, l.value.lengths, s.value.padding3, s.value.numStructs, s.value.structs),
            s.next);
  }

  /** One file block: the five header fields, then `len_body` body bytes. */
  method DecodeFileBlock(data: seq<byte>, pos: nat, psize: nat) returns (r: Parse<FileBlock>)
    requires psize == 4 || psize == 8
    ensures r == ReadFileBlock(data, pos, psize)
  {
    var code := Bytes(data, pos, 4);
    if code.Fail? {
      return Fail(code.error);
    }
    var lenBody := U4(data, code.next);
    if lenBody.Fail? {
      return Fail(lenBody.error);
    }
    var memAddr := Bytes(data, lenBody.next, psize);
    if memAddr.Fail? {
      return Fail(memAddr.error);
    }
    var sdnaIndex := U4(data, memAddr.next);
    if sdnaIndex.Fail? {
      return Fail(sdnaIndex.error);
    }
    var count := U4(data, sdnaIndex.next);
    if count.Fail? {
      return Fail(count.error);
    }
    var body := Bytes(data, count.next, lenBody.value);
    if body.Fail? {
      return Fail(body.error);
    }
    r := Ok(FileBlock(code.value, lenBody.value, memAddr.value, sdnaIndex.value, count.value, body.value), body.next);
  }

  /** `repeat: eos`: blocks are decoded until the cursor reaches the end of
      the stream. */
  method DecodeBlocks(data: seq<byte>, pos: nat, psize: nat) returns (r: Parse<seq<FileBlock>>)
    requires psize == 4 || psize == 8
    ensures r == ReadBlocks(data, pos, psize)
  {
    var blocks: seq<FileBlock> := [];
    var cursor := pos;
    PrependNothing(ReadBlocks(data, pos, psize));
    while cursor < |data|
      invariant ReadBlocks(data, pos, psize) == Prepend(blocks, ReadBlocks(data, cursor, psize))
      decreases |data| - cursor
    {
      var b := DecodeFileBlock(data, cursor, psize);
      if b.Fail? {
        return Fail(b.error);
      }
      PrependTwice(blocks, [b.value], ReadBlocks(data, b.next, psize));
      blocks := blocks + [b.value];
      cursor := b.next;
    }
    assert blocks + [] == blocks;
    r := Ok(blocks, cursor);
  }

  /** `acc` followed by the bodies a successful decode produced. */
  function PrependBodies(acc: seq<Body>, r: Result<seq<Body>>): Result<seq<Body>>
  {
    match r
    case Success(v) => Success(acc + v)
    case Failure(e) => Failure(e)
  }

  /** One step of `ReadBodies` at block `i`: that block's body, then the rest. */
  lemma ReadBodiesAt(blocks: seq<FileBlock>, i: nat)
    requires i < |blocks|
    ensures ReadBody(blocks[i]).Failure? ==> ReadBodies(blocks[i..]) == Failure(ReadBody(blocks[i]).error)
    ensures ReadBody(blocks[i]).Success? ==>
      ReadBodies(blocks[i..]) == PrependBodies([ReadBody(blocks[i]).value], ReadBodies(blocks[i + 1..]))
  {
    assert blocks[i..][0] == blocks[i] && blocks[i..][1..] == blocks[i + 1..];
  }

  lemma PrependBodiesTwice(acc: seq<Body>, x: Body, r: Result<seq<Body>>)
    ensures PrependBodies(acc, PrependBodies([x], r)) == PrependBodies(acc + [x], r)
  {
    if r.Success? {
      assert acc + ([x] + r.value) == (acc + [x]) + r.value;
    }
  }

  /** The body of every block, decoded in block order. */
  method DecodeBodies(blocks: seq<FileBlock>) returns (r: Result<seq<Body>>)
    ensures r == ReadBodies(blocks)
  {
    var bodies: seq<Body> := [];
    var i := 0;
    assert blocks[0..] == blocks;
    assert ReadBodies(blocks).Success? ==> [] + ReadBodies(blocks).value == ReadBodies(blocks).value;
    while i < |blocks|
      invariant i <= |blocks|
      invariant ReadBodies(blocks) == PrependBodies(bodies, ReadBodies(blocks[i..]))
    {
      var b := blocks[i];
      var body: Body := Opaque;
      if b.code == DNA1 {
        var d := DecodeDna1Body(b.body);
        if d.Fail? {
          ReadBodiesAt(blocks, i);
          return Failure(d.error);
        }
        body := Dna1(d.value);
      }
      assert ReadBody(b) == Success(body);
      ReadBodiesAt(blocks, i);
      PrependBodiesTwice(bodies, body, ReadBodies(blocks[i + 1..]));
      bodies := bodies + [body];
      i := i + 1;
    }
    assert blocks[i..] == [];
    assert bodies + [] == bodies;
    r := Success(bodies);
  }

  /** A whole `.blend` file: the header, the block stream, then the bodies. */
  method DecodeBlendFile(data: seq<byte>) returns (r: Result<BlendFile>)
    ensures r == ReadBlendFile(data)
  {
    var hdr := ReadHeader(data);
    if hdr.Fail? {
      return Failure(hdr.error);
    }
    var blocks := DecodeBlocks(data, hdr.next, Psize(hdr.value));
    if blocks.Fail? {
      return Failure(blocks.error);
    }
    var bodies := DecodeBodies(blocks.value);
    if bodies.Failure? {
      return Failure(bodies.error);
    }
    r := Success(BlendFile(hdr.value, blocks.value, bodies.value));
  }
}
