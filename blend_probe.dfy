/**
  The byte-level header probe of the tsserver plugin: `matchMagic` compares a
  literal string with the bytes at an offset, `parseSequence` reads a record
  of one-byte numbers and length-prefixed strings while it advances an offset,
  and `parseBlendFile` applies both to the start of a `.blend` file and
  formats what it read as a message.

  `DataView.getUint8` throws a `RangeError` for an index past the end of the
  view; every read here models that as an outcome rather than a precondition.
*/
module BlendProbe {
  import opened Wrappers
  import opened BlendBytes
  import opened JsText
  import BlendLayout

  /** How a call ends: normally with a value, or with the `RangeError` of a
      read at `index`, past the end of the bytes. */
  datatype Completion<+T> = Normal(value: T) | RangeError(index: nat)

  /** The characters `String.fromCharCode` gives for the bytes. */
  function Chars(bs: seq<byte>): (s: string)
    ensures |s| == |bs| && forall i :: 0 <= i < |bs| ==> s[i] as int == bs[i]
  {
    seq(|bs|, i requires 0 <= i < |bs| => bs[i] as char)
  }

  // ---------------------------------------------------------------------------
  // matchMagic

  /** What `matchMagic` returns: `false`, or `{offset}` just after the magic. */
  datatype MagicMatch = NoMatch | MatchedTo(offset: nat)

  /** The first `k` characters of `magic` are the bytes found at `offset`. */
  predicate AgreesFor(magic: string, data: seq<byte>, offset: nat, k: nat)
  {
    k <= |magic| && offset + k <= |data| && forall i :: 0 <= i < k ==> magic[i] as int == data[offset + i]
  }

  /** The comparison from character `i` on: the first character that differs
      ends it with `false`, a read past the end throws. */
  function MagicFrom(magic: string, data: seq<byte>, offset: nat, i: nat): Completion<MagicMatch>
    requires i <= |magic|
    decreases |magic| - i
  {
    if i == |magic| then Normal(MatchedTo(offset + |magic|))
    else if offset + i >= |data| then RangeError(offset + i)
    else if magic[i] as int != data[offset + i] then Normal(NoMatch)
    else MagicFrom(magic, data, offset, i + 1)
  }

  function MatchMagicSpec(magic: string, data: seq<byte>, offset: nat): Completion<MagicMatch>
  {
    MagicFrom(magic, data, offset, 0)
  }

  /** The outcome of the comparison from an agreeing prefix of length `k`:
      a match exactly when all characters agree, `false` exactly at a first
      differing character, and a `RangeError` exactly when the bytes end
      while all characters so far agree. */
  lemma {:induction false} MagicFromMeaning(magic: string, data: seq<byte>, offset: nat, k: nat)
    requires AgreesFor(magic, data, offset, k)
    ensures var r := MagicFrom(magic, data, offset, k);
      && (r.Normal? && r.value.MatchedTo? <==> AgreesFor(magic, data, offset, |magic|))
      && (r.Normal? && r.value.MatchedTo? ==> r.value.offset == offset + |magic|)
      && (r == Normal(NoMatch) <==>
           exists i :: k <= i < |magic| && AgreesFor(magic, data, offset, i) && offset + i < |data|
                       && magic[i] as int != data[offset + i])
      && (r.RangeError? <==>
           exists i :: k <= i < |magic| && AgreesFor(magic, data, offset, i) && offset + i == |data|)
      && (r.RangeError? ==> r.index == |data|)
    decreases |magic| - k
  {
    if k < |magic| && offset + k < |data| && magic[k] as int == data[offset + k] {
      MagicFromMeaning(magic, data, offset, k + 1);
      forall i | k <= i < |magic| && AgreesFor(magic, data, offset, i) && i != k
        ensures k + 1 <= i
      {
      }
    }
    if AgreesFor(magic, data, offset, |magic|) && k < |magic| {
      assert offset + k < |data| && magic[k] as int == data[offset + k];
    }
  }

  /** `matchMagic`: compares `magic` with the bytes at `offset`, one
      character at a time. */
  method MatchMagic(magic: string, data: seq<byte>, offset: nat) returns (r: Completion<MagicMatch>)
    ensures r == MatchMagicSpec(magic, data, offset)
    ensures r.Normal? && r.value.MatchedTo? ==> r.value.offset == offset + |magic|
    ensures offset + |magic| <= |data| ==> r.Normal?
    ensures offset + |magic| <= |data| ==>
      (r == Normal(NoMatch) <==> exists i :: 0 <= i < |magic| && magic[i] as int != data[offset + i])
  {
    if offset <= |data| {
      MagicFromMeaning(magic, data, offset, 0);
    }
    var i := 0;
    while i < |magic|
      invariant i <= |magic|
      invariant MagicFrom(magic, data, offset, 0) == MagicFrom(magic, data, offset, i)
    {
      if offset + i >= |data| {
        return RangeError(offset + i);
      }
      if magic[i] as int != data[offset + i] {
        return Normal(NoMatch);
      }
      i := i + 1;
    }
    r := Normal(MatchedTo(offset + |magic|));
  }

  // ---------------------------------------------------------------------------
  // parseSequence

  /** The field kinds a sequence spec may name. */
  datatype FieldType = U1 | Str

  datatype FieldValue = Number(n: nat) | Text(s: string)

  /** Reads one field at `at`: a `u1` is the byte there; a `str` is a length
      byte `L` followed by `L` characters. */
  function ReadField(data: seq<byte>, at: nat, t: FieldType): (r: Completion<(FieldValue, nat)>)
    ensures r.Normal? <==> at < |data| && (t == Str ==> at + 1 + data[at] as int <= |data|)
    ensures t == U1 && r.Normal? ==> r.value == (Number(data[at]), at + 1)
    ensures t == Str && r.Normal? ==>
      r.value == (Text(Chars(data[at + 1..at + 1 + data[at] as int])), at + 1 + data[at] as int)
    ensures r.RangeError? ==> r.index == if at >= |data| then at else |data|
  {
    if at >= |data| then RangeError(at)
    else
      var len: nat := data[at];
      match t
      case U1 => Normal((Number(data[at]), at + 1))
      case Str =>
        if at + 1 + len <= |data| then Normal((Text(Chars(data[at + 1..at + 1 + len])), at + 1 + len))
        else RangeError(|data|)
  }

  /** The fields of `spec` read in order from `at`, and the offset after
      them. A key that occurs again overwrites the earlier value. */
  function SequenceSpec(data: seq<byte>, at: nat, spec: seq<(string, FieldType)>)
    : Completion<(nat, map<string, FieldValue>)>
    decreases |spec|
  {
    if spec == [] then Normal((at, map[]))
    else match ReadField(data, at, spec[0].1)
      case RangeError(i) => RangeError(i)
      case Normal((v, q)) =>
        match SequenceSpec(data, q, spec[1..])
        case RangeError(i) => RangeError(i)
        case Normal((end, m)) => Normal((end, map[spec[0].0 := v] + m))
  }

  /** Bytes a field at `at` occupies: one for a `u1`, one plus the length
      byte's value for a `str`. */
  function Width(data: seq<byte>, at: nat, t: FieldType): nat
  {
    match t
    case U1 => 1
    case Str => if at < |data| then 1 + data[at] as int else 1
  }

  /** Bytes the fields of `spec` occupy when read in order from `at`. */
  function Consumed(data: seq<byte>, at: nat, spec: seq<(string, FieldType)>): nat
    decreases |spec|
  {
    if spec == [] then 0 else Width(data, at, spec[0].1) + Consumed(data, at + Width(data, at, spec[0].1), spec[1..])
  }

  /** The offset `parseSequence` returns is the start plus the widths of the
      fields read in spec order, and the result holds exactly the spec keys. */
  lemma {:induction false} SequenceExtent(data: seq<byte>, at: nat, spec: seq<(string, FieldType)>)
    requires SequenceSpec(data, at, spec).Normal?
    ensures var r := SequenceSpec(data, at, spec).value;
      && r.0 == at + Consumed(data, at, spec)
      && r.1.Keys == set i | 0 <= i < |spec| :: spec[i].0
    decreases |spec|
  {
    if spec != [] {
      var f := ReadField(data, at, spec[0].1);
      SequenceExtent(data, f.value.1, spec[1..]);
      var keys := set i | 0 <= i < |spec| :: spec[i].0;
      var restKeys := set i | 0 <= i < |spec[1..]| :: spec[1..][i].0;
      assert keys == {spec[0].0} + restKeys by {
        forall i | 0 <= i < |spec| ensures spec[i].0 in {spec[0].0} + restKeys {
          if i > 0 {
            assert spec[i].0 == spec[1..][i - 1].0;
          }
        }
      }
    }
  }

  /** A successful read of a non-empty spec: its first field, then the rest. */
  lemma SequenceCons(data: seq<byte>, at: nat, spec: seq<(string, FieldType)>)
    requires spec != [] && SequenceSpec(data, at, spec).Normal?
    ensures var f := ReadField(data, at, spec[0].1);
      && f.Normal? && f.value.1 == at + Width(data, at, spec[0].1)
      && var rest := SequenceSpec(data, f.value.1, spec[1..]);
      && rest.Normal?
      && SequenceSpec(data, at, spec).value == (rest.value.0, map[spec[0].0 := f.value.0] + rest.value.1)
  {
  }

  /** The widths before field `k` are the first field's and those before
      field `k - 1` of the rest. */
  lemma ConsumedCons(data: seq<byte>, at: nat, spec: seq<(string, FieldType)>, k: nat)
    requires 0 < k <= |spec|
    ensures Consumed(data, at, spec[..k])
         == Width(data, at, spec[0].1) + Consumed(data, at + Width(data, at, spec[0].1), spec[1..][..k - 1])
  {
    assert spec[..k][0] == spec[0] && spec[..k][1..] == spec[1..][..k - 1];
  }

  /** A key that occurs once in the spec gets the value of its own field,
      read at the start plus the widths of the fields before it. */
  lemma {:induction false} SequenceFieldAt(data: seq<byte>, at: nat, spec: seq<(string, FieldType)>, k: nat)
    requires SequenceSpec(data, at, spec).Normal?
    requires k < |spec| && forall j :: 0 <= j < |spec| && j != k ==> spec[j].0 != spec[k].0
    ensures var pos := at + Consumed(data, at, spec[..k]);
      && ReadField(data, pos, spec[k].1).Normal?
      && spec[k].0 in SequenceSpec(data, at, spec).value.1
      && SequenceSpec(data, at, spec).value.1[spec[k].0] == ReadField(data, pos, spec[k].1).value.0
    decreases k
  {
    SequenceCons(data, at, spec);
    var q := at + Width(data, at, spec[0].1);
    var rest := SequenceSpec(data, q, spec[1..]);
    if k == 0 {
      assert spec[..0] == [];
      SequenceExtent(data, q, spec[1..]);
      forall i | 0 <= i < |spec[1..]|
        ensures spec[1..][i].0 != spec[0].0
      {
        assert spec[1..][i] == spec[i + 1];
      }
    } else {
      forall j | 0 <= j < |spec[1..]| && j != k - 1
        ensures spec[1..][j].0 != spec[1..][k - 1].0
      {
        assert spec[1..][j] == spec[j + 1];
      }
      SequenceFieldAt(data, q, spec[1..], k - 1);
      ConsumedCons(data, at, spec, k);
      assert spec[1..][k - 1] == spec[k];
    }
  }

  /** The result so far, updated by what the remaining fields produce. */
  function Merge(acc: map<string, FieldValue>, r: Completion<(nat, map<string, FieldValue>)>)
    : Completion<(nat, map<string, FieldValue>)>
  {
    match r
    case RangeError(i) => RangeError(i)
    case Normal((end, m)) => Normal((end, acc + m))
  }

  /** One field of the spec: read it, then the rest. */
  lemma SequenceStep(data: seq<byte>, at: nat, spec: seq<(string, FieldType)>, k: nat,
                     acc: map<string, FieldValue>, v: FieldValue, q: nat)
    requires k < |spec| && ReadField(data, at, spec[k].1) == Normal((v, q))
    ensures Merge(acc, SequenceSpec(data, at, spec[k..]))
         == Merge(acc[spec[k].0 := v], SequenceSpec(data, q, spec[k + 1..]))
  {
    assert spec[k..][0] == spec[k] && spec[k..][1..] == spec[k + 1..];
    var rest := SequenceSpec(data, q, spec[k + 1..]);
    if rest.Normal? {
      assert acc + (map[spec[k].0 := v] + rest.value.1) == acc[spec[k].0 := v] + rest.value.1;
    }
  }

  /** One field that fails to read ends the whole sequence with its error. */
  lemma SequenceStop(data: seq<byte>, at: nat, spec: seq<(string, FieldType)>, k: nat,
                     acc: map<string, FieldValue>)
    requires k < |spec| && ReadField(data, at, spec[k].1).RangeError?
    ensures Merge(acc, SequenceSpec(data, at, spec[k..])) == RangeError(ReadField(data, at, spec[k].1).index)
  {
    assert spec[k..][0] == spec[k];
  }

  /** The body of `parseSequence`'s loop for one field: a `u1` is one byte; a
      `str` is a length byte and then that many characters, one at a time. */
  method ReadFieldAt(data: seq<byte>, at: nat, t: FieldType) returns (r: Completion<(FieldValue, nat)>)
    ensures r == ReadField(data, at, t)
  {
    var cursor := at;
    if cursor >= |data| {
      return RangeError(cursor);
    }
    if t == U1 {
      return Normal((Number(data[cursor]), cursor + 1));
    }
    var len: nat := data[cursor];
    cursor := cursor + 1;
    var str := "";
    var i := 0;
    while i < len
      invariant i <= len && cursor == at + 1 + i <= |data|
      invariant str == Chars(data[at + 1..cursor])
    {
      if cursor >= |data| {
        return RangeError(cursor);
      }
      assert data[at + 1..cursor + 1] == data[at + 1..cursor] + [data[cursor]];
      str := str + [data[cursor] as char];
      cursor := cursor + 1;
      i := i + 1;
    }
    r := Normal((Text(str), cursor));
  }

  /** `parseSequence`: for each key of `spec` in order, reads a `u1` or a
      length-prefixed `str` at the offset and advances it. */
  method ParseSequence(data: seq<byte>, offset: nat, spec: seq<(string, FieldType)>)
    returns (r: Completion<(nat, map<string, FieldValue>)>)
    ensures r == SequenceSpec(data, offset, spec)
  {
    var result: map<string, FieldValue> := map[];
    var cursor: nat := offset;
    var k := 0;
    assert spec[0..] == spec;
    assert SequenceSpec(data, offset, spec).Normal? ==>
      result + SequenceSpec(data, offset, spec).value.1 == SequenceSpec(data, offset, spec).value.1;
    while k < |spec|
      invariant k <= |spec|
      invariant SequenceSpec(data, offset, spec) == Merge(result, SequenceSpec(data, cursor, spec[k..]))
    {
      var (key, t) := spec[k];
      var field := ReadFieldAt(data, cursor, t);
      if field.RangeError? {
        SequenceStop(data, cursor, spec, k, result);
        return RangeError(field.index);
      }
      SequenceStep(data, cursor, spec, k, result, field.value.0, field.value.1);
      result := result[key := field.value.0];
      cursor := field.value.1;
      k := k + 1;
    }
    assert spec[k..] == [];
    assert result + map[] == result;
    r := Normal((cursor, result));
  }

  // ---------------------------------------------------------------------------
  // parseBlendFile

  const BLENDER_TEXT: string := "BLENDER"
  const NOT_A_BLEND_FILE: string := "not a blend file."

  /** The record `parseBlendFile` reads after the magic. */
  const HEADER_FIELDS: seq<(string, FieldType)> := [("ptr_size", U1), ("endian", U1), ("version", Str)]

  /** The text of a field value when concatenated to a string. */
  function Show(v: FieldValue): string
  {
    match v
    case Number(n) => Decimal(n)
    case Text(s) => s
  }

  function Report(version: string, ptrSize: string, endian: string, offset: nat): string
  {
    "Sir! It's version " + version + " and ptr_size " + ptrSize + " and endian " + endian
      + " and offset " + Decimal(offset)
  }

  /** What `parseBlendFile` returns for the bytes of a file. */
  function ProbeSpec(data: seq<byte>): Completion<string>
  {
    match MatchMagicSpec(BLENDER_TEXT, data, 0)
    case RangeError(i) => RangeError(i)
    case Normal(NoMatch) => Normal(NOT_A_BLEND_FILE)
    case Normal(MatchedTo(next)) =>
      match SequenceSpec(data, next, HEADER_FIELDS)
      case RangeError(i) => RangeError(i)
      case Normal((offset, result)) =>
        var s := (k: string) => if k in result then Show(result[k]) else "undefined";
        Normal(Report(s("version"), s("ptr_size"), s("endian"), offset))
  }

  /** `parseBlendFile` on the bytes of a file (reading the file is not modelled). */
  method ParseBlendFile(data: seq<byte>) returns (r: Completion<string>)
    ensures r == ProbeSpec(data)
  {
    var next := MatchMagic(BLENDER_TEXT, data, 0);
    if next.RangeError? {
      return RangeError(next.index);
    }
    if next.value == NoMatch {
      return Normal(NOT_A_BLEND_FILE);
    }
    var parsed := ParseSequence(data, next.value.offset, HEADER_FIELDS);
    if parsed.RangeError? {
      return RangeError(parsed.index);
    }
    var (offset, result) := parsed.value;
    var s := (k: string) => if k in result then Show(result[k]) else "undefined";
    r := Normal(Report(s("version"), s("ptr_size"), s("endian"), offset));
  }

  /** The probe's first step: "not a blend file." exactly when the first
      seven bytes are there and differ from `BLENDER`. */
  lemma ProbeNotBlend(data: seq<byte>)
    requires 7 <= |data|
    ensures ProbeSpec(data) == Normal(NOT_A_BLEND_FILE) <==> data[..7] != BlendLayout.BLENDER
  {
    MagicFromMeaning(BLENDER_TEXT, data, 0, 0);
    var m := MatchMagicSpec(BLENDER_TEXT, data, 0);
    if m == Normal(NoMatch) {
      var i :| 0 <= i < 7 && AgreesFor(BLENDER_TEXT, data, 0, i) && i < |data| && BLENDER_TEXT[i] as int != data[i];
      assert data[..7][i] != BlendLayout.BLENDER[i];
    } else {
      assert AgreesFor(BLENDER_TEXT, data, 0, 7);
      assert data[..7] == BlendLayout.BLENDER;
      assert m.Normal? && m.value.MatchedTo?;
      ReportIsNotNotBlend();
    }
  }

  /** After the magic, the record reads byte 7 and byte 8 as numbers and
      byte 9 as the length of the version string that follows. */
  lemma HeaderFieldsRead(data: seq<byte>)
    requires SequenceSpec(data, 7, HEADER_FIELDS).Normal?
    ensures 10 <= |data| && 10 + data[9] as int <= |data|
    ensures var r := SequenceSpec(data, 7, HEADER_FIELDS).value;
      && r.0 == 10 + data[9] as int
      && "ptr_size" in r.1 && r.1["ptr_size"] == Number(data[7])
      && "endian" in r.1 && r.1["endian"] == Number(data[8])
      && "version" in r.1 && r.1["version"] == Text(Chars(data[10..10 + data[9] as int]))
  {
    var fields := HEADER_FIELDS;
    assert fields[1..] == [("endian", U1), ("version", Str)];
    assert fields[1..][1..] == [("version", Str)];
    assert fields[1..][1..][1..] == [];
    var p0 := SequenceSpec(data, 7, fields);
    var p1 := SequenceSpec(data, 8, fields[1..]);
    var p2 := SequenceSpec(data, 9, fields[1..][1..]);
    assert ReadField(data, 7, U1).Normal? && p1.Normal?;
    assert ReadField(data, 8, U1).Normal? && p2.Normal?;
    var len := data[9] as int;
    var version := Text(Chars(data[10..10 + len]));
    assert ReadField(data, 9, Str) == Normal((version, 10 + len));
    assert p2.value == (10 + len, map["version" := version] + map[]);
    assert p1.value == (10 + len, map["endian" := Number(data[8])] + p2.value.1);
    assert p0.value == (10 + len, map["ptr_size" := Number(data[7])] + p1.value.1);
    assert "ptr_size"[0] != "endian"[0] && "ptr_size"[0] != "version"[0] && "endian"[0] != "version"[0];
  }

  /** Whatever the probe reports after reading the magic is not "not a blend file.". */
  lemma ReportIsNotNotBlend()
    ensures forall v, p, e, o :: Report(v, p, e, o) != NOT_A_BLEND_FILE
  {
    forall v, p, e, o ensures Report(v, p, e, o) != NOT_A_BLEND_FILE {
      assert Report(v, p, e, o)[0] == 'S' != NOT_A_BLEND_FILE[0];
    }
  }

  /** What the probe reports for a file that starts with `BLENDER`: byte 7
      as the pointer size, byte 8 as the endianness, byte 9 as the length of
      the version that follows it, and the offset just after that version. */
  lemma ProbeReport(data: seq<byte>)
    requires ProbeSpec(data).Normal? && ProbeSpec(data).value != NOT_A_BLEND_FILE
    ensures 10 <= |data| && data[..7] == BlendLayout.BLENDER
    ensures 10 + data[9] as int <= |data|
    ensures ProbeSpec(data).value
         == Report(Chars(data[10..10 + data[9] as int]), Decimal(data[7]), Decimal(data[8]), 10 + data[9] as int)
  {
    MagicFromMeaning(BLENDER_TEXT, data, 0, 0);
    var m := MatchMagicSpec(BLENDER_TEXT, data, 0);
    assert m.Normal? && m.value.MatchedTo?;
    assert AgreesFor(BLENDER_TEXT, data, 0, 7);
    assert data[..7] == BlendLayout.BLENDER;
    HeaderFieldsRead(data);
  }

  /** For every file that the layout's header accepts and whose version
      starts with a digit, as in every real `.blend` file, the probe does not
      report the three-byte version and the twelve-byte header: it takes the
      digit's character code (at least 48) as a length, so it either reads
      past the end or reports a version of 48 or more characters. */
  lemma ProbeMisreadsVersion(data: seq<byte>)
    requires BlendLayout.ReadHeader(data).Ok?
    requires '0' as int <= data[9] <= '9' as int
    ensures var h := BlendLayout.ReadHeader(data).value;
      ProbeSpec(data) != Normal(Report(Chars(h.version), Decimal(h.ptrSizeId), Decimal(h.endian), BlendLayout.HEADER_SIZE))
  {
    var h := BlendLayout.ReadHeader(data).value;
    ProbeNotBlend(data);
    if ProbeSpec(data).Normal? {
      ProbeReport(data);
      var off := 10 + data[9] as int;
      LongerReport(Chars(h.version), Chars(data[10..off]), Decimal(data[7]), Decimal(data[8]), off);
    }
  }

  /** A report with a version of 48 or more characters and an offset past
      57 differs from the report of a three-character version at offset 12. */
  lemma LongerReport(version: string, longVersion: string, ptrSize: string, endian: string, offset: nat)
    requires |version| == 3 && |longVersion| >= 48 && offset >= 58
    ensures Report(version, ptrSize, endian, 12) != Report(longVersion, ptrSize, endian, offset)
  {
    assert |Decimal(offset)| >= 2;
    assert |Decimal(12)| == 2;
  }

  /** The probe with the version read as the header's three fixed bytes,
      as the layout's header defines it, and the offset after the header. */
  function HeaderProbe(data: seq<byte>): (r: Completion<string>)
    ensures r == Normal(NOT_A_BLEND_FILE) <==> ProbeSpec(data) == Normal(NOT_A_BLEND_FILE)
    ensures r.Normal? && r.value != NOT_A_BLEND_FILE <==> BlendLayout.ReadHeader(data).Ok?
    ensures r.RangeError? ==> r.index == |data|
  {
    BlenderMagic(data);
    ReportIsNotNotBlend();
    match MatchMagicSpec(BLENDER_TEXT, data, 0)
    case RangeError(i) => RangeError(i)
    case Normal(NoMatch) => Normal(NOT_A_BLEND_FILE)
    case Normal(MatchedTo(_)) =>
      if |data| < BlendLayout.HEADER_SIZE then RangeError(|data|)
      else Normal(Report(Chars(data[9..12]), Decimal(data[7]), Decimal(data[8]), BlendLayout.HEADER_SIZE))
  }

  /** On every file the layout's header accepts, the corrected probe reports
      the header's pointer-size flag, endian flag and three-byte version,
      and the offset 12 just after the header. */
  lemma HeaderProbeReadsHeader(data: seq<byte>)
    requires BlendLayout.ReadHeader(data).Ok?
    ensures var h := BlendLayout.ReadHeader(data).value;
      HeaderProbe(data) == Normal(Report(Chars(h.version), Decimal(h.ptrSizeId), Decimal(h.endian), BlendLayout.HEADER_SIZE))
  {
    MagicFromMeaning(BLENDER_TEXT, data, 0, 0);
    assert data[..7] == BlendLayout.BLENDER;
    assert forall i :: 0 <= i < 7 ==> data[i] == data[..7][i];
    assert AgreesFor(BLENDER_TEXT, data, 0, 7);
  }

  /** The `BLENDER` comparison matches exactly when the file starts with
      those seven bytes, and throws only at the end of the bytes. */
  lemma BlenderMagic(data: seq<byte>)
    ensures var m := MatchMagicSpec(BLENDER_TEXT, data, 0);
      && (m.Normal? && m.value.MatchedTo? <==> 7 <= |data| && data[..7] == BlendLayout.BLENDER)
      && (m.RangeError? ==> m.index == |data|)
  {
    MagicFromMeaning(BLENDER_TEXT, data, 0, 0);
    if 7 <= |data| && data[..7] == BlendLayout.BLENDER {
      assert forall i :: 0 <= i < 7 ==> data[i] == data[..7][i];
      assert AgreesFor(BLENDER_TEXT, data, 0, 7);
    }
    if AgreesFor(BLENDER_TEXT, data, 0, 7) {
      assert data[..7] == BlendLayout.BLENDER;
    }
  }
}
