/**
  What the layout guarantees about a decoded schema (`dna1_body`): it lies
  in the block's body as its image (`SDNA`, then the name, type, length and
  struct sections, each later tag on a multiple of four), the image of a
  struct description reads back as that struct, and a decoded schema is
  well formed exactly when every index it holds is found by the lookups.
*/
module BlendSchemaFacts {
  import opened BlendBytes
  import opened BlendLayout

  // ---------------------------------------------------------------------------
  // Fields and structs

  /** A field reads back from its image. */
  lemma ReadFieldOfImage(data: seq<byte>, pos: nat, f: DnaField)
    requires FieldFits(f) && pos + 4 <= |data| && data[pos..pos + 4] == FieldImage(f)
    ensures ReadField(data, pos) == Ok(f, pos + 4)
  {
    ConcatAt(data, pos, Le2(f.idxType), Le2(f.idxName));
    U2At(data, pos, f.idxType);
    U2At(data, pos + 2, f.idxName);
  }

  lemma {:induction false} FieldTableOfImage(data: seq<byte>, pos: nat, fs: seq<DnaField>)
    requires forall i :: 0 <= i < |fs| ==> FieldFits(fs[i])
    requires pos + 4 * |fs| <= |data| && data[pos..pos + 4 * |fs|] == FieldsImage(fs)
    ensures Repeat(ReadField, data, pos, |fs|) == Ok(fs, pos + 4 * |fs|)
    decreases |fs|
  {
    if fs != [] {
      var f, rest := fs[0], fs[1..];
      assert [f] + rest == fs;
      ConcatAt(data, pos, FieldImage(f), FieldsImage(rest));
      ReadFieldOfImage(data, pos, f);
      FieldTableOfImage(data, pos + 4, rest);
      RepeatCons(ReadField, data, pos, |fs|, f, pos + 4, rest, pos + 4 * |fs|);
    }
  }

  /** A struct description reads back from its image. */
  lemma ReadStructOfImage(data: seq<byte>, pos: nat, s: DnaStruct)
    requires StructFits(s)
    requires pos + |StructImage(s)| <= |data| && data[pos..pos + |StructImage(s)|] == StructImage(s)
    ensures ReadStruct(data, pos) == Ok(s, pos + |StructImage(s)|)
  {
    var head := Le2(s.idxType) + Le2(s.numFields);
    ConcatAt(data, pos, head, FieldsImage(s.fields));
    ConcatAt(data, pos, Le2(s.idxType), Le2(s.numFields));
    U2At(data, pos, s.idxType);
    U2At(data, pos + 2, s.numFields);
    FieldTableOfImage(data, pos + 4, s.fields);
  }

  // ---------------------------------------------------------------------------
  // Each section lies in the body as its image

  /** A name section is its tag, its count and its table. */
  lemma NameSectionParts(body: seq<byte>, pos: nat)
    requires ReadNames(body, pos).Ok?
    ensures var r := ReadNames(body, pos); var v := r.value;
      && U4(body, pos + 4) == Ok(v.numNames, pos + 8)
      && Repeat(Strz, body, pos + 8, v.numNames) == Ok(v.names, r.next)
  {
  }

  /** The bytes a name section was read from are its image. */
  lemma NameSectionBytes(body: seq<byte>, pos: nat)
    requires ReadNames(body, pos).Ok?
    ensures var r := ReadNames(body, pos);
      r.next == pos + |NameSectionImage(r.value)| && body[pos..r.next] == NameSectionImage(r.value)
  {
    var r := ReadNames(body, pos);
    var v := r.value;
    NameSectionParts(body, pos);
    U4Image(body, pos + 4);
    StrzTableBytes(body, pos + 8, v.numNames);
    Joined(body, pos, pos + 4, pos + 8, NAME, Le4(v.numNames));
    Joined(body, pos, pos + 8, r.next, NAME + Le4(v.numNames), NulJoin(v.names));
  }

  /** A type section is its padding, its tag, its count and its table. */
  lemma TypeSectionParts(body: seq<byte>, pos: nat)
    requires ReadTypes(body, pos).Ok?
    ensures var r := ReadTypes(body, pos); var v := r.value; var at := pos + |v.padding1|;
      && body[pos..at] == v.padding1
      && U4(body, at + 4) == Ok(v.numTypes, at + 8)
      && Repeat(Strz, body, at + 8, v.numTypes) == Ok(v.types, r.next)
  {
  }

  /** The bytes a type section was read from, padding included, are its image. */
  lemma TypeSectionBytes(body: seq<byte>, pos: nat)
    requires ReadTypes(body, pos).Ok?
    ensures var r := ReadTypes(body, pos);
      r.next == pos + |TypeSectionImage(r.value)| && body[pos..r.next] == TypeSectionImage(r.value)
  {
    var r := ReadTypes(body, pos);
    var v := r.value;
    var at := pos + |v.padding1|;
    assert body[pos..at] == v.padding1 && body[at..at + 4] == TYPE
        && body[at + 4..at + 8] == Le4(v.numTypes) && body[at + 8..r.next] == NulJoin(v.types) by {
      TypeSectionParts(body, pos);
      U4Image(body, at + 4);
      StrzTableBytes(body, at + 8, v.numTypes);
    }
    Joined(body, pos, at, at + 4, v.padding1, TYPE);
    Joined(body, pos, at + 4, at + 8, v.padding1 + TYPE, Le4(v.numTypes));
    Joined(body, pos, at + 8, r.next, v.padding1 + TYPE + Le4(v.numTypes), NulJoin(v.types));
  }

  /** A length section is its padding, its tag and its table. */
  lemma LengthSectionParts(body: seq<byte>, pos: nat, numTypes: nat)
    requires ReadLengths(body, pos, numTypes).Ok?
    ensures var r := ReadLengths(body, pos, numTypes); var v := r.value; var at := pos + |v.padding2|;
      && body[pos..at] == v.padding2
      && Repeat(U2, body, at + 4, numTypes) == Ok(v.lengths, r.next)
  {
  }

  /** The bytes a length section was read from, padding included, are its image. */
  lemma LengthSectionBytes(body: seq<byte>, pos: nat, numTypes: nat)
    requires ReadLengths(body, pos, numTypes).Ok?
    ensures var r := ReadLengths(body, pos, numTypes);
      r.next == pos + |LengthSectionImage(r.value)| && body[pos..r.next] == LengthSectionImage(r.value)
  {
    var r := ReadLengths(body, pos, numTypes);
    var v := r.value;
    var at := pos + |v.padding2|;
    LengthSectionParts(body, pos, numTypes);
    U2TableBytes(body, at + 4, numTypes);
    Joined(body, pos, at, at + 4, v.padding2, TLEN);
    Joined(body, pos, at + 4, r.next, v.padding2 + TLEN, Le2s(v.lengths));
  }

  /** A struct section is its padding, its tag, its count and its table. */
  lemma StructSectionParts(body: seq<byte>, pos: nat)
    requires ReadStructs(body, pos).Ok?
    ensures var r := ReadStructs(body, pos); var v := r.value; var at := pos + |v.padding3|;
      && body[pos..at] == v.padding3
      && U4(body, at + 4) == Ok(v.numStructs, at + 8)
      && Repeat(ReadStruct, body, at + 8, v.numStructs) == Ok(v.structs, r.next)
  {
  }

  /** The bytes a struct section was read from, padding included, are its image. */
  lemma StructSectionBytes(body: seq<byte>, pos: nat)
    requires ReadStructs(body, pos).Ok?
    ensures var r := ReadStructs(body, pos);
      r.next == pos + |StructSectionImage(r.value)| && body[pos..r.next] == StructSectionImage(r.value)
  {
    var r := ReadStructs(body, pos);
    var v := r.value;
    var at := pos + |v.padding3|;
    StructSectionParts(body, pos);
    U4Image(body, at + 4);
    StructTableBytes(body, at + 8, v.numStructs);
    Joined(body, pos, at, at + 4, v.padding3, STRC);
    Joined(body, pos, at + 4, at + 8, v.padding3 + STRC, Le4(v.numStructs));
    Joined(body, pos, at + 8, r.next, v.padding3 + STRC + Le4(v.numStructs), StructsImage(v.structs));
  }

  // ---------------------------------------------------------------------------
  // The whole schema

  /** A decoded `dna1_body` is made of its four sections, read one after another. */
  lemma Dna1BodyOfSections(body: seq<byte>)
    requires ReadDna1Body(body).Ok?
    ensures var n := ReadNames(body, 4);
      var t := ReadTypes(body, n.next);
      var l := ReadLengths(body, t.next, t.value.numTypes);
      var st := ReadStructs(body, l.next);
      && n.Ok? && t.Ok? && l.Ok? && st.Ok?
      && ReadDna1Body(body) == Ok(Dna1Body(n.value.numNames, n.value.names, t.value.padding1,
           t.value.numTypes, t.value.types, l.value.padding2, l.value.lengths, st.value.padding3,
           st.value.numStructs, st.value.structs), st.next)
  {
  }

  /** The sizes of the section images place the sections where `SectionEnds` says. */
  lemma SectionImageSizes(d: Dna1Body)
    requires Dna1Fits(d)
    ensures var e := SectionEnds(d);
      && 4 + |NameSectionImage(NameSection(d.numNames, d.names))| == e.0
      && e.0 + |TypeSectionImage(TypeSection(d.padding1, d.numTypes, d.types))| == e.1
      && e.1 + |LengthSectionImage(LengthSection(d.padding2, d.lengths))| == e.2
      && e.2 + |StructSectionImage(StructSection(d.padding3, d.numStructs, d.structs))| == |Dna1Image(d)|
  {
  }

  /** The name section of a decoded schema starts after `SDNA` and ends where
      `SectionEnds` says. */
  lemma NamesAt(body: seq<byte>)
    requires ReadDna1Body(body).Ok?
    ensures var d := ReadDna1Body(body).value;
      ReadNames(body, 4) == Ok(NameSection(d.numNames, d.names), SectionEnds(d).0)
  {
    Dna1BodyOfSections(body);
    NameSectionBytes(body, 4);
  }

  /** The type section of a decoded schema lies between the first two section ends. */
  lemma TypesAt(body: seq<byte>)
    requires ReadDna1Body(body).Ok?
    ensures var d := ReadDna1Body(body).value; var e := SectionEnds(d);
      ReadTypes(body, e.0) == Ok(TypeSection(d.padding1, d.numTypes, d.types), e.1)
  {
    var d := ReadDna1Body(body).value;
    NamesAt(body);
    Dna1BodyOfSections(body);
    TypeSectionBytes(body, SectionEnds(d).0);
  }

  /** The length section of a decoded schema lies between the second and third section ends. */
  lemma LengthsAt(body: seq<byte>)
    requires ReadDna1Body(body).Ok?
    ensures var d := ReadDna1Body(body).value; var e := SectionEnds(d);
      ReadLengths(body, e.1, d.numTypes) == Ok(LengthSection(d.padding2, d.lengths), e.2)
  {
    var d := ReadDna1Body(body).value;
    NamesAt(body);
    TypesAt(body);
    Dna1BodyOfSections(body);
    LengthSectionBytes(body, SectionEnds(d).1, d.numTypes);
  }

  /** The struct section of a decoded schema runs from the third section end
      to the end of the schema. */
  lemma StructsAt(body: seq<byte>)
    requires ReadDna1Body(body).Ok?
    ensures var r := ReadDna1Body(body); var d := r.value;
      ReadStructs(body, SectionEnds(d).2) == Ok(StructSection(d.padding3, d.numStructs, d.structs), r.next)
  {
    NamesAt(body);
    TypesAt(body);
    LengthsAt(body);
    Dna1BodyOfSections(body);
  }

  /** A decoded schema lies at the start of the body as its image: `SDNA`,
      the name, type, length and struct sections, each later section's
      padding bringing its tag to a multiple of four. */
  lemma Dna1BodyImageOf(body: seq<byte>)
    requires ReadDna1Body(body).Ok?
    ensures var r := ReadDna1Body(body); var d := r.value;
      && Dna1Fits(d) && Aligned(d) && NoNul(d.names) && NoNul(d.types)
      && r.next == |Dna1Image(d)| <= |body|
      && body[..r.next] == Dna1Image(d)
  {
    var r := ReadDna1Body(body);
    var d := r.value;
    var e := SectionEnds(d);
    assert Dna1Fits(d) && Aligned(d) && NoNul(d.names) && NoNul(d.types) by {
      NamesAt(body);
      TypesAt(body);
      LengthsAt(body);
      StructsAt(body);
    }
    var ni := NameSectionImage(NameSection(d.numNames, d.names));
    var ti := TypeSectionImage(TypeSection(d.padding1, d.numTypes, d.types));
    var li := LengthSectionImage(LengthSection(d.padding2, d.lengths));
    var si := StructSectionImage(StructSection(d.padding3, d.numStructs, d.structs));
    SectionImageSizes(d);
    assert body[4..e.0] == ni by {
      NamesAt(body);
      NameSectionBytes(body, 4);
    }
    assert body[e.0..e.1] == ti by {
      TypesAt(body);
      TypeSectionBytes(body, e.0);
    }
    assert body[e.1..e.2] == li by {
      LengthsAt(body);
      LengthSectionBytes(body, e.1, d.numTypes);
    }
    assert r.next == |Dna1Image(d)| && body[e.2..r.next] == si by {
      StructsAt(body);
      StructSectionBytes(body, e.2);
    }
    assert body[0..4] == SDNA;
    Joined(body, 0, 4, e.0, SDNA, ni);
    Joined(body, 0, e.0, e.1, SDNA + ni, ti);
    Joined(body, 0, e.1, e.2, SDNA + ni + ti, li);
    Joined(body, 0, e.2, r.next, SDNA + ni + ti + li, si);
    assert body[..r.next] == body[0..r.next];
  }

  /** A decoded schema is well formed exactly when every struct's type and
      every field's type and name are found by the lookups. */
  lemma DecodedSchemaWellFormed(body: seq<byte>)
    requires ReadDna1Body(body).Ok?
    ensures var d := ReadDna1Body(body).value;
      WellFormedSchema(d) <==>
        forall i :: 0 <= i < |d.structs| ==>
          && StructType(d, d.structs[i]).Some?
          && forall j :: 0 <= j < |d.structs[i].fields| ==>
               FieldType(d, d.structs[i].fields[j]).Some? && FieldName(d, d.structs[i].fields[j]).Some?
  {
    SchemaLookupsResolve(ReadDna1Body(body).value);
  }
}
