/**
  The `.blend` container layout: a 12-byte header, then file blocks (code,
  body length, pointer-sized memory address, SDNA index, count, body) repeated
  to the end of the stream; the body of a block whose code is `DNA1` is the
  schema ("Structure DNA") of every struct stored in the file. Each `read`
  function decodes one type of the layout at a position and returns the
  value and the position after it, as a Kaitai Struct parser does.
*/
module BlendLayout {
  import opened Wrappers
  import opened BlendBytes

  // ---------------------------------------------------------------------------
  // Literal contents (ASCII)

  const BLENDER: seq<byte> := [66, 76, 69, 78, 68, 69, 82]   // "BLENDER"
  const DNA1: seq<byte> := [68, 78, 65, 49]                   // "DNA1"
  const SDNA: seq<byte> := [83, 68, 78, 65]                   // "SDNA"
  const NAME: seq<byte> := [78, 65, 77, 69]                   // "NAME"
  const TYPE: seq<byte> := [84, 89, 80, 69]                   // "TYPE"
  const TLEN: seq<byte> := [84, 76, 69, 78]                   // "TLEN"
  const STRC: seq<byte> := [83, 84, 82, 67]                   // "STRC"

  /** Length of the header: magic, pointer-size flag, endian flag, version. */
  const HEADER_SIZE: nat := 12

  // ---------------------------------------------------------------------------
  // Enums

  datatype PtrSize = Bits64 | Bits32
  datatype Endian = Be | Le

  /** The `ptr_size` enum: 45 is `bits_64`, 95 is `bits_32`; other values have no name. */
  function PtrSizeOf(id: byte): (r: Option<PtrSize>)
    ensures r.Some? <==> id == 45 || id == 95
    ensures r == Some(Bits64) <==> id == 45
  {
    if id == 45 then Some(Bits64) else if id == 95 then Some(Bits32) else None
  }

  /** The `endian` enum: 86 is `be`, 118 is `le`; other values have no name. */
  function EndianOf(id: byte): (r: Option<Endian>)
    ensures r.Some? <==> id == 86 || id == 118
    ensures r == Some(Le) <==> id == 118
  {
    if id == 86 then Some(Be) else if id == 118 then Some(Le) else None
  }

  // ---------------------------------------------------------------------------
  // Header

  /** The enum fields keep their raw byte, as Kaitai keeps an enum value that
      has no name. */
  datatype Header = Header(ptrSizeId: byte, endian: byte, version: seq<byte>)

  /** `psize`: bytes a pointer occupies, 8 for `bits_64` and 4 for every other flag. */
  function Psize(h: Header): (r: nat)
    ensures r == 4 || r == 8
    ensures r == 8 <==> h.ptrSizeId == 45
  {
    if PtrSizeOf(h.ptrSizeId) == Some(Bits64) then 8 else 4
  }

  function ReadHeader(data: seq<byte>): (r: Parse<Header>)
    ensures r.Ok? <==> HEADER_SIZE <= |data| && data[..7] == BLENDER
    ensures r.Ok? ==> r.next == HEADER_SIZE && r.value == Header(data[7], data[8], data[9..12])
  {
    var magic :- Contents(data, 0, BLENDER);
    var ptrSizeId :- U1(data, magic.1);
    var endian :- U1(data, ptrSizeId.1);
    var version :- Bytes(data, endian.1, 3);
    Ok(Header(ptrSizeId.0, endian.0, version.0), version.1)
  }

  function HeaderImage(h: Header): seq<byte>
  {
    BLENDER + [h.ptrSizeId, h.endian] + h.version
  }

  // ---------------------------------------------------------------------------
  // DNA1 body: the schema

  datatype DnaField = DnaField(idxType: nat, idxName: nat)
  datatype DnaStruct = DnaStruct(idxType: nat, numFields: nat, fields: seq<DnaField>)
  datatype Dna1Body = Dna1Body(
    numNames: nat, names: seq<seq<byte>>, padding1: seq<byte>,
    numTypes: nat, types: seq<seq<byte>>, padding2: seq<byte>,
    lengths: seq<nat>, padding3: seq<byte>,
    numStructs: nat, structs: seq<DnaStruct>)

  /** A field description whose indices fit their 16-bit fields. */
  predicate FieldFits(f: DnaField)
  {
    f.idxType < 0x1_0000 && f.idxName < 0x1_0000
  }

  /** A struct description whose numbers fit their 16-bit fields and which
      lists as many fields as it declares. */
  predicate StructFits(s: DnaStruct)
  {
    && s.idxType < 0x1_0000 && s.numFields < 0x1_0000
    && |s.fields| == s.numFields
    && forall i :: 0 <= i < |s.fields| ==> FieldFits(s.fields[i])
  }

  predicate AllStructsFit(ss: seq<DnaStruct>)
  {
    forall i :: 0 <= i < |ss| ==> StructFits(ss[i])
  }

  /** The bytes of a field: its type index, then its name index. */
  function FieldImage(f: DnaField): seq<byte>
    requires FieldFits(f)
  {
    Le2(f.idxType) + Le2(f.idxName)
  }

  function FieldsImage(fs: seq<DnaField>): (img: seq<byte>)
    requires forall i :: 0 <= i < |fs| ==> FieldFits(fs[i])
    ensures |img| == 4 * |fs|
  {
    if fs == [] then [] else FieldImage(fs[0]) + FieldsImage(fs[1..])
  }

  /** The bytes of a struct: its type index, its field count, its fields. */
  function StructImage(s: DnaStruct): (img: seq<byte>)
    requires StructFits(s)
    ensures |img| == 4 + 4 * s.numFields
  {
    Le2(s.idxType) + Le2(s.numFields) + FieldsImage(s.fields)
  }

  function StructsImage(ss: seq<DnaStruct>): seq<byte>
    requires AllStructsFit(ss)
  {
    if ss == [] then [] else StructImage(ss[0]) + StructsImage(ss[1..])
  }

  /** A field reads exactly when its four bytes are present. */
  function ReadField(data: seq<byte>, pos: nat): (r: Parse<DnaField>)
    ensures r.Ok? <==> pos + 4 <= |data|
    ensures r.Ok? ==> r.next == pos + 4 && FieldFits(r.value)
  {
    var idxType :- U2(data, pos);
    var idxName :- U2(data, idxType.1);
    Ok(DnaField(idxType.0, idxName.0), idxName.1)
  }

  /** The four bytes a field was read from are its image: the type index
      and the name index, each as two little-endian bytes. */
  lemma ReadFieldImage(data: seq<byte>, pos: nat)
    requires ReadField(data, pos).Ok?
    ensures data[pos..pos + 4] == FieldImage(ReadField(data, pos).value)
  {
    U2Image(data, pos);
    U2Image(data, pos + 2);
    SliceSplit(data, pos, pos + 2, pos + 4);
  }

  /** A struct reads exactly when its four header bytes and the four bytes
      of each declared field are present. */
  function ReadStruct(data: seq<byte>, pos: nat): (r: Parse<DnaStruct>)
    ensures r.Ok? <==> pos + 4 <= |data| && pos + 4 + 4 * U2(data, pos + 2).value <= |data|
    ensures r.Ok? ==> && StructFits(r.value)
                      && r.next == pos + 4 + 4 * r.value.numFields <= |data|
  {
    var idxType :- U2(data, pos);
    var numFields :- U2(data, idxType.1);
    FieldTableBytes(data, numFields.1, numFields.0);
    var fields :- Repeat(ReadField, data, numFields.1, numFields.0);
    Ok(DnaStruct(idxType.0, numFields.0, fields.0), fields.1)
  }

  /** The bytes a struct was read from are its image. */
  lemma ReadStructImage(data: seq<byte>, pos: nat)
    requires ReadStruct(data, pos).Ok?
    ensures var r := ReadStruct(data, pos); data[pos..r.next] == StructImage(r.value)
  {
    var r := ReadStruct(data, pos);
    FieldTableBytes(data, pos + 4, r.value.numFields);
    U2Image(data, pos);
    U2Image(data, pos + 2);
    SliceSplit(data, pos, pos + 2, pos + 4);
    SliceSplit(data, pos, pos + 4, r.next);
  }

  /** A table of `n` fields reads exactly when `4 * n` bytes remain, and
      occupies exactly the fields' images. */
  lemma {:induction false} FieldTableBytes(data: seq<byte>, pos: nat, n: nat)
    requires pos <= |data|
    ensures var r := Repeat(ReadField, data, pos, n);
      && (r.Ok? <==> pos + 4 * n <= |data|)
      && (r.Ok? ==> && r.next == pos + 4 * n
                    && (forall i :: 0 <= i < n ==> FieldFits(r.value[i]))
                    && data[pos..r.next] == FieldsImage(r.value))
    decreases n
  {
    var r := Repeat(ReadField, data, pos, n);
    if n == 0 {
      assert r == Ok([], pos);
    } else if pos + 4 <= |data| {
      var x := ReadField(data, pos);
      var rest := Repeat(ReadField, data, pos + 4, n - 1);
      FieldTableBytes(data, pos + 4, n - 1);
      if rest.Ok? {
        assert r.value == [x.value] + rest.value;
        assert r.value[1..] == rest.value;
        ReadFieldImage(data, pos);
        SliceSplit(data, pos, pos + 4, r.next);
      }
    }
  }

  /** `size: (4 - _io.pos) % 4`: the bytes up to the next multiple of four.
      Kaitai's `%` never yields a negative result, like Dafny's. */
  function Padding(data: seq<byte>, pos: nat): (r: Parse<seq<byte>>)
    ensures r.Ok? <==> pos + (4 - pos) % 4 <= |data|
    ensures r.Ok? ==> && |r.value| == (4 - pos) % 4 <= 3
                      && r.next == pos + |r.value| && r.next % 4 == 0
                      && r.value == data[pos..r.next]
  {
    Bytes(data, pos, (4 - pos) % 4)
  }

  /** The sections of a `dna1_body` after the `SDNA` tag. Each section after
      the first starts with the padding that aligns its tag to four bytes. */
  datatype NameSection = NameSection(numNames: nat, names: seq<seq<byte>>)
  datatype TypeSection = TypeSection(padding1: seq<byte>, numTypes: nat, types: seq<seq<byte>>)
  datatype LengthSection = LengthSection(padding2: seq<byte>, lengths: seq<nat>)
  datatype StructSection = StructSection(padding3: seq<byte>, numStructs: nat, structs: seq<DnaStruct>)

  function NameSectionImage(v: NameSection): seq<byte>
    requires v.numNames < 0x1_0000_0000
  {
    NAME + Le4(v.numNames) + NulJoin(v.names)
  }

  function TypeSectionImage(v: TypeSection): seq<byte>
    requires v.numTypes < 0x1_0000_0000
  {
    v.padding1 + TYPE + Le4(v.numTypes) + NulJoin(v.types)
  }

  function LengthSectionImage(v: LengthSection): seq<byte>
    requires Below(v.lengths, 0x1_0000)
  {
    v.padding2 + TLEN + Le2s(v.lengths)
  }

  function StructSectionImage(v: StructSection): seq<byte>
    requires v.numStructs < 0x1_0000_0000 && AllStructsFit(v.structs)
  {
    v.padding3 + STRC + Le4(v.numStructs) + StructsImage(v.structs)
  }

  /** No string of a table contains the NUL byte that ends it. */
  predicate NoNul(xs: seq<seq<byte>>)
  {
    forall i :: 0 <= i < |xs| ==> 0 !in xs[i]
  }

  /** `NAME`, a count, and that many NUL-terminated names. */
  function ReadNames(body: seq<byte>, pos: nat): (r: Parse<NameSection>)
    ensures r.Ok? ==> var v := r.value;
      && pos + 8 <= |body| && body[pos..pos + 4] == NAME
      && v.numNames < 0x1_0000_0000 && |v.names| == v.numNames && NoNul(v.names)
      && pos + 8 <= r.next <= |body|
  {
    var magic :- Contents(body, pos, NAME);
    var num :- U4(body, magic.1);
    var names :- Repeat(Strz, body, num.1, num.0);
    StrzTableBytes(body, num.1, num.0);
    Ok(NameSection(num.0, names.0), names.1)
  }

  /** Padding, `TYPE`, a count, and that many NUL-terminated type names. */
  function ReadTypes(body: seq<byte>, pos: nat): (r: Parse<TypeSection>)
    ensures r.Ok? ==> var v := r.value; var at := pos + |v.padding1|;
      && |v.padding1| == (4 - pos) % 4 && at % 4 == 0
      && at + 8 <= |body| && body[at..at + 4] == TYPE
      && v.numTypes < 0x1_0000_0000 && |v.types| == v.numTypes && NoNul(v.types)
      && at + 8 <= r.next <= |body|
  {
    var padding :- Padding(body, pos);
    var magic :- Contents(body, padding.1, TYPE);
    var num :- U4(body, magic.1);
    var types :- Repeat(Strz, body, num.1, num.0);
    StrzTableBytes(body, num.1, num.0);
    Ok(TypeSection(padding.0, num.0, types.0), types.1)
  }

  /** Padding, `TLEN`, and one 16-bit length per type. */
  function ReadLengths(body: seq<byte>, pos: nat, numTypes: nat): (r: Parse<LengthSection>)
    ensures r.Ok? ==> var v := r.value; var at := pos + |v.padding2|;
      && |v.padding2| == (4 - pos) % 4 && at % 4 == 0
      && at + 4 <= |body| && body[at..at + 4] == TLEN
      && |v.lengths| == numTypes && Below(v.lengths, 0x1_0000)
      && r.next == at + 4 + 2 * numTypes <= |body|
  {
    var padding :- Padding(body, pos);
    var magic :- Contents(body, padding.1, TLEN);
    var lengths :- Repeat(U2, body, magic.1, numTypes);
    U2TableBytes(body, magic.1, numTypes);
    Ok(LengthSection(padding.0, lengths.0), lengths.1)
  }

  /** Padding, `STRC`, a count, and that many struct descriptions. */
  function ReadStructs(body: seq<byte>, pos: nat): (r: Parse<StructSection>)
    ensures r.Ok? ==> var v := r.value; var at := pos + |v.padding3|;
      && |v.padding3| == (4 - pos) % 4 && at % 4 == 0
      && at + 8 <= |body| && body[at..at + 4] == STRC
      && v.numStructs < 0x1_0000_0000 && |v.structs| == v.numStructs && AllStructsFit(v.structs)
      && at + 8 <= r.next <= |body|
  {
    var padding :- Padding(body, pos);
    var magic :- Contents(body, padding.1, STRC);
    var num :- U4(body, magic.1);
    var structs :- Repeat(ReadStruct, body, num.1, num.0);
    StructTableBytes(body, num.1, num.0);
    Ok(StructSection(padding.0, num.0, structs.0), structs.1)
  }

  /** A `dna1_body`, read from the start of a block's body: `SDNA`, then the
      name, type, length and struct sections in that order. */
  function ReadDna1Body(body: seq<byte>): (r: Parse<Dna1Body>)
    ensures r.Ok? ==> 4 <= |body| && body[..4] == SDNA && r.next <= |body|
    ensures r.Ok? ==> var d := r.value;
      && |d.names| == d.numNames
      && |d.types| == d.numTypes
      && |d.lengths| == d.numTypes
      && |d.structs| == d.numStructs
      && forall i :: 0 <= i < |d.structs| ==> |d.structs[i].fields| == d.structs[i].numFields
  {
    var id :- Contents(body, 0, SDNA);
    var n :- ReadNames(body, id.1);
    var t :- ReadTypes(body, n.1);
    var l :- ReadLengths(body, t.1, t.0.numTypes);
    var s :- ReadStructs(body, l.1);
    Ok(Dna1Body(n.0.numNames, n.0.names, t.0.padding1, t.0.numTypes, t.0.types, l.0.padding2,
                l.0.lengths, s.0.padding3, s.0.numStructs, s.0.structs), s.1)
  }

  /** The numbers of a schema fit the widths they are stored in. */
  predicate Dna1Fits(d: Dna1Body)
  {
    && d.numNames < 0x1_0000_0000 && d.numTypes < 0x1_0000_0000 && d.numStructs < 0x1_0000_0000
    && Below(d.lengths, 0x1_0000) && AllStructsFit(d.structs)
  }

  /** Where the name, type and length sections of a schema end, counted
      from the start of its body. */
  function SectionEnds(d: Dna1Body): (nat, nat, nat)
  {
    var namesEnd := 12 + |NulJoin(d.names)|;
    var typesEnd := namesEnd + |d.padding1| + 8 + |NulJoin(d.types)|;
    (namesEnd, typesEnd, typesEnd + |d.padding2| + 4 + 2 * |d.lengths|)
  }

  /** Each padding has the size `(4 - pos) % 4` for the position where it
      starts: the `TYPE`, `TLEN` and `STRC` tags fall on multiples of four. */
  predicate Aligned(d: Dna1Body)
  {
    var e := SectionEnds(d);
    && |d.padding1| == (4 - e.0) % 4
    && |d.padding2| == (4 - e.1) % 4
    && |d.padding3| == (4 - e.2) % 4
  }

  /** The bytes of a schema: `SDNA`, then its four sections. */
  function Dna1Image(d: Dna1Body): seq<byte>
    requires Dna1Fits(d)
  {
    SDNA
    + NameSectionImage(NameSection(d.numNames, d.names))
    + TypeSectionImage(TypeSection(d.padding1, d.numTypes, d.types))
    + LengthSectionImage(LengthSection(d.padding2, d.lengths))
    + StructSectionImage(StructSection(d.padding3, d.numStructs, d.structs))
  }

  /** A table of `n` structs ends inside the data and occupies exactly the
      structs' images. */
  lemma {:induction false} StructTableBytes(data: seq<byte>, pos: nat, n: nat)
    requires pos <= |data|
    ensures var r := Repeat(ReadStruct, data, pos, n);
      r.Ok? ==> pos <= r.next <= |data| && AllStructsFit(r.value) && data[pos..r.next] == StructsImage(r.value)
    decreases n
  {
    var r := Repeat(ReadStruct, data, pos, n);
    if n == 0 {
      assert r == Ok([], pos);
    } else {
      var x := ReadStruct(data, pos);
      if x.Ok? {
        var rest := Repeat(ReadStruct, data, x.next, n - 1);
        StructTableBytes(data, x.next, n - 1);
        if rest.Ok? {
          assert r == Ok([x.value] + rest.value, rest.next);
          ReadStructImage(data, pos);
          StructsCons(x.value, rest.value);
          Joined(data, pos, x.next, rest.next, StructImage(x.value), StructsImage(rest.value));
        }
      }
    }
  }

  lemma StructsCons(s: DnaStruct, rest: seq<DnaStruct>)
    requires StructFits(s) && AllStructsFit(rest)
    ensures AllStructsFit([s] + rest)
    ensures StructsImage([s] + rest) == StructImage(s) + StructsImage(rest)
  {
    assert ([s] + rest)[1..] == rest;
  }

  // ---------------------------------------------------------------------------
  // Schema lookups (the `type` and `name` instances of `dna_struct` and `dna_field`)

  /** The `type` instance of a `dna_struct`: its name in the type table. */
  function StructType(d: Dna1Body, s: DnaStruct): (r: Option<seq<byte>>)
    ensures r.Some? <==> s.idxType < |d.types|
    ensures r.Some? ==> r.value == d.types[s.idxType]
  {
    if s.idxType < |d.types| then Some(d.types[s.idxType]) else None
  }

  /** The `type` instance of a `dna_field`: its name in the type table. */
  function FieldType(d: Dna1Body, f: DnaField): (r: Option<seq<byte>>)
    ensures r.Some? <==> f.idxType < |d.types|
    ensures r.Some? ==> r.value == d.types[f.idxType]
  {
    if f.idxType < |d.types| then Some(d.types[f.idxType]) else None
  }

  /** The `name` instance of a `dna_field`: its entry in the name table. */
  function FieldName(d: Dna1Body, f: DnaField): (r: Option<seq<byte>>)
    ensures r.Some? <==> f.idxName < |d.names|
    ensures r.Some? ==> r.value == d.names[f.idxName]
  {
    if f.idxName < |d.names| then Some(d.names[f.idxName]) else None
  }

  /** The schema as an index-addressed table: the tables have their declared
      sizes, and every type and name index of a struct or field is in range. */
  predicate WellFormedSchema(d: Dna1Body)
  {
    && |d.names| == d.numNames
    && |d.types| == d.numTypes
    && |d.lengths| == d.numTypes
    && |d.structs| == d.numStructs
    && forall i :: 0 <= i < |d.structs| ==>
         && d.structs[i].idxType < d.numTypes
         && |d.structs[i].fields| == d.structs[i].numFields
         && forall j :: 0 <= j < |d.structs[i].fields| ==>
              d.structs[i].fields[j].idxType < d.numTypes && d.structs[i].fields[j].idxName < d.numNames
  }

  /** For a schema whose tables have their declared sizes, as every decoded
      schema's do, being well formed is exactly every struct's type and every
      field's type and name being found by the lookups. */
  lemma SchemaLookupsResolve(d: Dna1Body)
    requires |d.names| == d.numNames && |d.types| == d.numTypes
    requires |d.lengths| == d.numTypes && |d.structs| == d.numStructs
    requires forall i :: 0 <= i < |d.structs| ==> |d.structs[i].fields| == d.structs[i].numFields
    ensures WellFormedSchema(d) <==>
      forall i :: 0 <= i < |d.structs| ==>
        && StructType(d, d.structs[i]).Some?
        && forall j :: 0 <= j < |d.structs[i].fields| ==>
             FieldType(d, d.structs[i].fields[j]).Some? && FieldName(d, d.structs[i].fields[j]).Some?
  {
  }

  // ---------------------------------------------------------------------------
  // File blocks

  /** A file block as it lies in the stream. `body` is the `len_body` bytes
      that follow the block header, kept raw; `ReadBody` decodes them. */
  datatype FileBlock = FileBlock(
    code: seq<byte>, lenBody: nat, memAddr: seq<byte>, sdnaIndex: nat, count: nat, body: seq<byte>)

  /** Bytes of a block before its body: code, length, address, index, count. */
  function BlockHeaderSize(psize: nat): nat
  {
    4 + 4 + psize + 4 + 4
  }

  function ReadFileBlock(data: seq<byte>, pos: nat, psize: nat): (r: Parse<FileBlock>)
    requires psize == 4 || psize == 8
    ensures r.Ok? ==> r.next == pos + BlockHeaderSize(psize) + r.value.lenBody <= |data|
  {
    var code :- Bytes(data, pos, 4);
    var lenBody :- U4(data, code.1);
    var memAddr :- Bytes(data, lenBody.1, psize);
    var sdnaIndex :- U4(data, memAddr.1);
    var count :- U4(data, sdnaIndex.1);
    var body :- Bytes(data, count.1, lenBody.0);
    Ok(FileBlock(code.0, lenBody.0, memAddr.0, sdnaIndex.0, count.0, body.0), body.1)
  }

  /** `repeat: eos`: file blocks until the stream is exhausted. */
  function ReadBlocks(data: seq<byte>, pos: nat, psize: nat): (r: Parse<seq<FileBlock>>)
    requires psize == 4 || psize == 8
    ensures r.Ok? && pos <= |data| ==> r.next == |data|
    ensures r.Ok? && pos < |data| ==> |r.value| > 0
    decreases |data| - pos
  {
    if pos >= |data| then Ok([], pos)
    else
      var b :- ReadFileBlock(data, pos, psize);
      var rest :- ReadBlocks(data, b.1, psize);
      Ok([b.0] + rest.0, rest.1)
  }

  // ---------------------------------------------------------------------------
  // Block bodies

  datatype Body = Opaque | Dna1(dna: Dna1Body)

  /** The `switch-on: code` of a body: the body of a `DNA1` block is decoded
      as a `dna1_body` in its own stream; any other body stays raw. */
  function ReadBody(b: FileBlock): (r: Result<Body>)
    ensures r.Success? ==> (r.value.Dna1? <==> b.code == DNA1)
    ensures r.Success? && r.value.Dna1? ==> ReadDna1Body(b.body).Ok? && r.value.dna == ReadDna1Body(b.body).value
    ensures r.Failure? <==> b.code == DNA1 && ReadDna1Body(b.body).Fail?
  {
    if b.code == DNA1 then
      match ReadDna1Body(b.body)
      case Ok(d, _) => Success(Dna1(d))
      case Fail(e) => Failure(e)
    else Success(Opaque)
  }

  /** The decoded body of every block, in block order; the first body that
      fails to decode fails the whole file. */
  function ReadBodies(blocks: seq<FileBlock>): (r: Result<seq<Body>>)
    ensures r.Success? ==> |r.value| == |blocks|
    ensures r.Success? ==> forall i :: 0 <= i < |blocks| ==> ReadBody(blocks[i]) == Success(r.value[i])
  {
    if blocks == [] then Success([])
    else
      var b :- ReadBody(blocks[0]);
      var rest :- ReadBodies(blocks[1..]);
      Success([b] + rest)
  }

  // ---------------------------------------------------------------------------
  // The whole file

  /** A decoded file: the header, the blocks in stream order and, index-aligned
      with them, their decoded bodies. */
  datatype BlendFile = BlendFile(hdr: Header, blocks: seq<FileBlock>, bodies: seq<Body>)

  function ReadBlendFile(data: seq<byte>): (r: Result<BlendFile>)
    ensures r.Success? ==> |r.value.bodies| == |r.value.blocks|
  {
    var hdr :- ResultOf(ReadHeader(data));
    var blocks :- ResultOf(ReadBlocks(data, hdr.1, Psize(hdr.0)));
    var bodies :- ReadBodies(blocks.0);
    Success(BlendFile(hdr.0, blocks.0, bodies))
  }

  /** A parse whose end position is not needed. */
  function ResultOf<T>(p: Parse<T>): (r: Result<(T, nat)>)
    ensures r.Success? <==> p.Ok?
    ensures r.Success? ==> r.value == (p.value, p.next)
  {
    match p
    case Ok(v, q) => Success((v, q))
    case Fail(e) => Failure(e)
  }

  /** `sdna_structs`: the struct table of the block before the last one,
      whose body must be a `dna1_body`. */
  function SdnaStructs(f: BlendFile): (r: Result<seq<DnaStruct>>)
    requires |f.bodies| == |f.blocks|
    ensures r.Success? <==> |f.blocks| >= 2 && f.bodies[|f.blocks| - 2].Dna1?
    ensures r.Success? ==> r.value == f.bodies[|f.blocks| - 2].dna.structs
  {
    if |f.blocks| < 2 then Failure(TooFewBlocks(|f.blocks|))
    else match f.bodies[|f.blocks| - 2]
      case Dna1(d) => Success(d.structs)
      case Opaque => Failure(SchemaBlockNotDna1(|f.blocks| - 2))
  }

  /** `sdna_struct` of a block: absent when its `sdna_index` is 0, otherwise
      that entry of `sdna_structs`. */
  function SdnaStruct(f: BlendFile, b: FileBlock): (r: Result<Option<DnaStruct>>)
    requires |f.bodies| == |f.blocks|
    ensures b.sdnaIndex == 0 <==> r == Success(None)
    ensures b.sdnaIndex != 0 ==>
      (r.Success? <==> SdnaStructs(f).Success? && b.sdnaIndex < |SdnaStructs(f).value|)
    ensures r.Success? && r.value.Some? ==>
      SdnaStructs(f).Success? && b.sdnaIndex < |SdnaStructs(f).value| && r.value.value == SdnaStructs(f).value[b.sdnaIndex]
  {
    if b.sdnaIndex == 0 then Success(None)
    else
      var structs :- SdnaStructs(f);
      if b.sdnaIndex < |structs| then Success(Some(structs[b.sdnaIndex]))
      else Failure(StructIndexOutOfRange(b.sdnaIndex, |structs|))
  }
}
