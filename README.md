# A verified model of a `.blend` reader and a browser state store

This project models, in Dafny, three parts of a web application that loads
Blender scenes:

- **The `.blend` container layout** (`blend-modules/src/index.ts`), which is
  declared there as a Kaitai Struct description. A file is a 12-byte header,
  then file blocks repeated to the end of the stream. The header holds the
  `BLENDER` magic, a pointer-size flag, an endian flag and a three-byte
  version. Each block holds a four-byte code, the body length, a memory
  address as wide as a pointer, an SDNA index, a count and the body. The
  body of a `DNA1` block is the schema: names, types, type lengths and struct
  definitions, with sections aligned to four bytes.
  - `BlendBytes` gives the stream primitives.
  - `BlendLayout` gives the layout as reference functions that return a
    value and the position after it, or an error.
  - `BlendFacts` proves what the layout guarantees. The header and the
    blocks re-encode to exactly the bytes they were read from. Encoding
    well-formed blocks and reading them back gives the same blocks. The
    schema block is found by its position.
  - `BlendSchemaFacts` proves that a decoded schema lies at the start of
    its block's body as its image, section by section, and that field and
    struct images read back as what they encode.
  - `BlendDecoder` is a cursor-based decoder whose loops fill the repeated
    tables. Each of its methods is proved equal to the layout function it
    implements, errors included.
- **The header probe of the tsserver plugin** (`matchMagic`,
  `parseSequence`, `parseBlendFile` in the same file). These read bytes
  through a `DataView`, and an index past the end throws a `RangeError`;
  that throw is modelled as a `Completion` outcome. `BlendProbe` gives each
  as a method with loops, proved against a recursive specification
  function.
- **The state store** (`src/StateStore.ts`) keeps the application state in
  local storage. When a store is created and a saved state exists, the
  saved state is used only if every property of the initial state has the
  same `typeof` in it, checked down through nested objects. `StateStore`
  models:
  - the JavaScript values involved;
  - property reads, including the `TypeError` from reading a property of
    `null`;
  - `for ... in` enumeration;
  - what `JSON.stringify` followed by `JSON.parse` keeps;
  - the worklist check, as a class constructor with the original loops.

  It proves that the check keeps the saved state exactly when an
  independent, structural shape predicate holds. It also proves that a
  state saved with `SetState` passes the check against itself when its
  object keys are distinct and none of its arrays holds `undefined`. An
  array holding `undefined` is saved with `null` in its place, and the
  check then falls back to the initial state.
- **Object helpers** (`src/ObjUtil.ts`): `entries`, `fromEntries` and
  `mapValues`, over objects given as ordered keys plus a key-to-value map.
  `ObjUtil` proves the round trips between `Entries` and `FromEntries` and
  what `MapValues` produces.

`JsText` gives the decimal text of a number. It is used for the probe's
message and for array and string index keys.

Where the written description of the format and the code disagree, the
model follows the code:
- An unknown pointer-size flag is not an error. The layout's `psize` is 8
  for flag 45 and 4 for every other value, since Kaitai enums do not
  validate.
- The header is 12 bytes long.
- The schema block is taken by position: the block before last.

## Model

| member | source | states |
|---|---|---|
| BlendBytes.U2 | blend-modules/src/index.ts:340-345 | a `u2` reads when two bytes remain, advances by two and is below 2^16 |
| BlendBytes.U4 | blend-modules/src/index.ts:252-271 | a `u4` reads when four bytes remain, advances by four and is below 2^32 |
| BlendBytes.U1 | blend-modules/src/index.ts:216-227 | a `u1` reads exactly when a byte remains; it is that byte, and the read advances by one |
| BlendBytes.Bytes | blend-modules/src/index.ts:244-262 | a `size: n` field with no type reads exactly when n bytes remain; it is those n bytes, and the read advances past them |
| BlendBytes.U2Image | blend-modules/src/index.ts:340-345 | the value read as `u2` re-encodes, little-endian, to the two bytes read |
| BlendBytes.U4Image | blend-modules/src/index.ts:252-256 | the value read as `u4` re-encodes, little-endian, to the four bytes read |
| BlendBytes.Contents | blend-modules/src/index.ts:212-215 | a `contents` field succeeds exactly when the expected bytes are at the position, and then consumes them |
| BlendBytes.NulIndex | blend-modules/src/index.ts:306-312 | finds the first NUL at or after the position, or reports that there is none |
| BlendBytes.Strz | blend-modules/src/index.ts:306-312 | a `strz` is the bytes before the first NUL, which is consumed; with no NUL the read fails |
| BlendBytes.Repeat | blend-modules/src/index.ts:306-312 | `repeat-expr` yields exactly `n` items |
| BlendBytes.StrzTableBytes | blend-modules/src/index.ts:306-312 | a table of `strz` strings occupies exactly the strings joined with NUL terminators, and none of them contains NUL |
| BlendBytes.StrzTableOfNulJoin | blend-modules/src/index.ts:306-312 | NUL-terminated strings without NUL read back as exactly those strings |
| BlendBytes.U2TableBytes | blend-modules/src/index.ts:340-345 | a table of `u2` occupies 2n bytes, which are the values encoded little-endian |
| BlendBytes.U2OfLe2 | blend-modules/src/index.ts:340-345 | a `u2` read of the encoding of n gives n |
| BlendBytes.U2TableOfLe2s | blend-modules/src/index.ts:340-345 | the little-endian encodings of 16-bit values, laid end to end, read back as a table of exactly those values |
| BlendBytes.U4OfLe4 | blend-modules/src/index.ts:252-256 | a `u4` read of the encoding of n gives n |
| BlendLayout.PtrSizeOf | blend-modules/src/index.ts:412-415 | 45 names `bits_64`, 95 names `bits_32`, other values have no name |
| BlendLayout.EndianOf | blend-modules/src/index.ts:416-419 | 86 names `be`, 118 names `le`, other values have no name |
| BlendLayout.Psize | blend-modules/src/index.ts:236-241 | the pointer size is 8 exactly when the flag is `bits_64` (45), otherwise 4 |
| BlendLayout.ReadHeader | blend-modules/src/index.ts:210-235 | the header reads exactly when 12 bytes are present and start with `BLENDER`; it holds bytes 7 and 8 and the three version bytes, and ends at 12 |
| BlendLayout.ReadField | blend-modules/src/index.ts:390-400 | a field reads exactly when four bytes remain; it occupies them and its indices fit in 16 bits (its bytes are in `ReadFieldImage`) |
| BlendLayout.ReadStruct | blend-modules/src/index.ts:366-383 | a struct reads exactly when its 4-byte head and its `num_fields` fields fit in the data; it occupies 4 + 4 * `num_fields` bytes (its bytes are in `ReadStructImage`) |
| BlendLayout.ReadFieldImage | blend-modules/src/index.ts:390-400 | the four bytes a field was read from are its type index and its name index, each encoded little-endian |
| BlendLayout.ReadStructImage | blend-modules/src/index.ts:366-383 | the bytes a struct was read from are its type index, its field count and the images of its fields |
| BlendLayout.FieldTableBytes | blend-modules/src/index.ts:377-382 | a table of n fields occupies 4n bytes, which are the images of the fields laid end to end |
| BlendLayout.StructTableBytes | blend-modules/src/index.ts:358-363 | a table of structs ends inside the data, and its bytes are the images of the structs laid end to end |
| BlendLayout.Padding | blend-modules/src/index.ts:313-316 | padding `(4 - pos) % 4` is at most three bytes and ends on a multiple of four |
| BlendLayout.ReadNames | blend-modules/src/index.ts:298-312 | the name section is the `NAME` tag, the count, and exactly that many NUL-terminated names laid out back to back |
| BlendLayout.ReadTypes | blend-modules/src/index.ts:313-331 | after padding to four bytes, the `TYPE` tag, the count and exactly that many NUL-terminated type names |
| BlendLayout.ReadLengths | blend-modules/src/index.ts:332-345 | after padding, the `TLEN` tag and one `u2` length per type, encoded little-endian |
| BlendLayout.ReadStructs | blend-modules/src/index.ts:346-363 | after padding, the `STRC` tag, the count and exactly that many structs, each with its declared number of fields |
| BlendLayout.ReadDna1Body | blend-modules/src/index.ts:290-365 | a decoded schema has as many names, types, lengths and structs as its counts say, and every struct as many fields as it declares |
| BlendLayout.StructType | blend-modules/src/index.ts:384-388 | a struct's type name exists exactly when its type index is within the type table |
| BlendLayout.FieldType | blend-modules/src/index.ts:401-404 | a field's type name exists exactly when its type index is within the type table |
| BlendLayout.FieldName | blend-modules/src/index.ts:405-408 | a field's name exists exactly when its name index is within the name table |
| BlendLayout.SchemaLookupsResolve | blend-modules/src/index.ts:384-408 | for a schema whose tables have their declared sizes, well-formedness holds exactly when every struct's type and every field's type and name are found by the lookups |
| BlendLayout.ReadFileBlock | blend-modules/src/index.ts:243-282 | a block occupies its header (16 bytes plus the pointer size) plus `len_body` bytes, within the stream |
| BlendLayout.ReadBlocks | blend-modules/src/index.ts:198-202 | `repeat: eos`: a successful read ends exactly at the end of the stream, with at least one block whenever bytes remain |
| BlendLayout.ReadBody | blend-modules/src/index.ts:272-281 | a body is decoded as a schema exactly when the code is `DNA1`; only such a body can fail |
| BlendLayout.ReadBodies | blend-modules/src/index.ts:198-202 | one body per block, each the decoding of that block's body |
| BlendLayout.ReadBlendFile | blend-modules/src/index.ts:193-203 | a file is a header and blocks to the end of the stream, with one body per block |
| BlendLayout.SdnaStructs | blend-modules/src/index.ts:205-207 | the struct table exists exactly when there are two blocks or more and the one before last is a schema; it is that schema's structs |
| BlendLayout.SdnaStruct | blend-modules/src/index.ts:284-287 | a block's struct is absent exactly when `sdna_index` is 0; otherwise it is entry `sdna_index` of the struct table |
| BlendFacts.HeaderImageOf | blend-modules/src/index.ts:210-235 | a decoded header re-encodes to the first 12 bytes |
| BlendFacts.HeaderOfImage | blend-modules/src/index.ts:210-235 | an encoded header, whatever follows it, decodes to itself |
| BlendFacts.FileBlockImageOf | blend-modules/src/index.ts:243-282 | a decoded block is well formed and re-encodes to the bytes it was read from |
| BlendFacts.FileBlockFields | blend-modules/src/index.ts:243-282 | each field of a decoded block sits at its fixed offset: code, length, address of pointer width, index, count, body |
| BlendFacts.FileBlockOfImage | blend-modules/src/index.ts:243-282 | an encoded well-formed block decodes to itself |
| BlendFacts.ReadFileBlockOfFields | blend-modules/src/index.ts:243-282 | bytes holding a block's fields at their offsets decode to that block |
| BlendFacts.BlocksTile | blend-modules/src/index.ts:198-202 | the blocks read to the end of the stream tile it exactly: their encodings, concatenated, are the bytes after the header |
| BlendFacts.BlocksOfImage | blend-modules/src/index.ts:198-202 | the concatenated encodings of well-formed blocks decode to those blocks |
| BlendFacts.BlendFileImageOf | blend-modules/src/index.ts:193-203 | a decoded file is the encoding of its header followed by the encodings of its blocks |
| BlendFacts.BlendFileOfImage | blend-modules/src/index.ts:193-203 | encoding a header and well-formed blocks, then decoding, gives the same file |
| BlendFacts.SchemaBlockByPosition | blend-modules/src/index.ts:205-207 | in a decoded file the struct table exists exactly when the block before last has code `DNA1` |
| BlendSchemaFacts.ReadFieldOfImage | blend-modules/src/index.ts:390-400 | the image of a field reads back as that field |
| BlendSchemaFacts.FieldTableOfImage | blend-modules/src/index.ts:377-382 | the images of fields, laid end to end, read back as exactly those fields |
| BlendSchemaFacts.ReadStructOfImage | blend-modules/src/index.ts:366-383 | the image of a struct description reads back as that struct |
| BlendSchemaFacts.NameSectionBytes | blend-modules/src/index.ts:298-312 | the bytes a name section was read from are `NAME`, the count as a little-endian `u4`, and the names, each followed by a NUL |
| BlendSchemaFacts.TypeSectionBytes | blend-modules/src/index.ts:313-331 | the bytes a type section was read from are its padding, `TYPE`, the count, and the type names, each followed by a NUL |
| BlendSchemaFacts.LengthSectionBytes | blend-modules/src/index.ts:332-345 | the bytes a length section was read from are its padding, `TLEN`, and one little-endian `u2` per type |
| BlendSchemaFacts.StructSectionBytes | blend-modules/src/index.ts:346-363 | the bytes a struct section was read from are its padding, `STRC`, the count, and the images of the structs |
| BlendSchemaFacts.Dna1BodyImageOf | blend-modules/src/index.ts:290-365 | a decoded schema is aligned (each padding brings the next tag to a multiple of four), its names and types hold no NUL, and the body starts with exactly its image: `SDNA`, then the four sections |
| BlendSchemaFacts.DecodedSchemaWellFormed | blend-modules/src/index.ts:290-408 | a decoded schema is well formed exactly when every struct's type and every field's type and name are found by the lookups |
| BlendDecoder.DecodeTable | blend-modules/src/index.ts:306-312 | the loop over a `repeat-expr` table gives exactly the layout's repetition, errors included |
| BlendDecoder.DecodeStruct | blend-modules/src/index.ts:366-383 | the struct decoder gives exactly the layout's struct |
| BlendDecoder.DecodeNames | blend-modules/src/index.ts:298-312 | decodes the name section as the layout does |
| BlendDecoder.DecodeTypes | blend-modules/src/index.ts:313-331 | decodes the type section as the layout does |
| BlendDecoder.DecodeLengths | blend-modules/src/index.ts:332-345 | decodes the length section as the layout does |
| BlendDecoder.DecodeStructs | blend-modules/src/index.ts:346-363 | decodes the struct section as the layout does |
| BlendDecoder.DecodeDna1Body | blend-modules/src/index.ts:290-365 | decodes a schema body as the layout does |
| BlendDecoder.DecodeFileBlock | blend-modules/src/index.ts:243-282 | decodes one block as the layout does |
| BlendDecoder.DecodeBlocks | blend-modules/src/index.ts:198-202 | the loop over the stream gives exactly the layout's blocks to the end |
| BlendDecoder.DecodeBodies | blend-modules/src/index.ts:272-281 | the loop over blocks decodes each body as the layout does, stopping at the first failure |
| BlendDecoder.DecodeBlendFile | blend-modules/src/index.ts:193-203 | decodes a whole file as the layout does |
| BlendProbe.Chars | blend-modules/src/index.ts:145 | each byte becomes the character with that code |
| BlendProbe.MagicFromMeaning | blend-modules/src/index.ts:126-133 | from an agreeing prefix, the comparison matches exactly when every character agrees. It answers `false` exactly when a character differs before the data ends, and throws exactly when the data ends first |
| BlendProbe.MatchMagic | blend-modules/src/index.ts:126-133 | a match returns the offset plus the magic's length. With the magic in bounds, it never throws and answers `false` exactly when some character differs |
| BlendProbe.ReadField | blend-modules/src/index.ts:139-148 | a `u1` is the byte at the offset; a `str` is a length byte and that many characters; reading past the end throws with the offending index |
| BlendProbe.ReadFieldAt | blend-modules/src/index.ts:139-148 | the byte-by-byte read of one field gives exactly what `ReadField` says |
| BlendProbe.SequenceExtent | blend-modules/src/index.ts:135-151 | the returned offset is the start plus the widths of the fields, and the result has exactly the spec's keys |
| BlendProbe.SequenceFieldAt | blend-modules/src/index.ts:135-151 | a key that occurs once holds the field read at the start plus the widths of the fields before it |
| BlendProbe.ParseSequence | blend-modules/src/index.ts:135-151 | the loop over the spec gives exactly the specification's offset and result, or its error |
| BlendProbe.ParseBlendFile | blend-modules/src/index.ts:153-173 | the probe gives exactly the specified message or error |
| BlendProbe.ProbeNotBlend | blend-modules/src/index.ts:162-165 | with seven bytes present, the probe says "not a blend file." exactly when they are not `BLENDER` |
| BlendProbe.HeaderFieldsRead | blend-modules/src/index.ts:166-170 | the record after the magic is byte 7, byte 8, and a version whose length is byte 9 |
| BlendProbe.ReportIsNotNotBlend | blend-modules/src/index.ts:163-172 | the report message never equals "not a blend file." |
| BlendProbe.ProbeReport | blend-modules/src/index.ts:166-172 | a report names byte 7, byte 8, the byte-9-long version after byte 9, and the offset after it |
| BlendProbe.ProbeMisreadsVersion | blend-modules/src/index.ts:166-172 | for a header the layout accepts, whose version starts with a digit, the probe never reports the three-byte version at offset 12 |
| BlendProbe.LongerReport | blend-modules/src/index.ts:172 | a report of a version of 48 characters or more differs from one of a 3-character version |
| BlendProbe.HeaderProbeReadsHeader | blend-modules/src/index.ts:210-235 | the corrected probe reports the layout header's flags, its three-byte version and offset 12 |
| BlendProbe.HeaderProbe | blend-modules/src/index.ts:162-172 | the corrected probe says "not a blend file." exactly when the probe as written does, reports exactly when the layout's header reads, and throws only at the end of the bytes |
| JsText.ParseIndex | src/StateStore.ts:13 | a key is read as an array index exactly when it is a canonical index key |
| JsText.DecimalRoundTrip | blend-modules/src/index.ts:172 | the decimal text of a number is a canonical index key that reads back as that number |
| JsText.DecimalInjective | blend-modules/src/index.ts:172 | different numbers have different decimal texts |
| StateStore.TypeOf | src/StateStore.ts:15 | `typeof` is "object" exactly for null, arrays and objects |
| StateStore.Lookup | src/StateStore.ts:15 | reading a property an object does not have gives undefined |
| StateStore.Get | src/StateStore.ts:15 | reading a property throws exactly when the value is null or undefined; on an object it is the property lookup |
| StateStore.LookupAt | src/StateStore.ts:15 | with distinct keys, each property reads back its own value |
| StateStore.MembersRead | src/StateStore.ts:13-15 | each key `for ... in` enumerates reads back the member's value, for objects, arrays and strings |
| StateStore.BudgetBelowSize | src/StateStore.ts:20-22 | the nested objects pushed for one value are smaller, in total, than the value, so the check ends |
| StateStore.MembersSmaller | src/StateStore.ts:20-22 | each nested object pushed is smaller than its parent |
| StateStore.RunKeeps | src/StateStore.ts:11-24 | the outer loop ends keeping the saved state exactly when every pending pair is compatible |
| StateStore.ScanKeeps | src/StateStore.ts:13-23 | the inner loop ends keeping the saved state exactly when the remaining members agree and the pending pairs are compatible |
| StateStore.CheckKeeps | src/StateStore.ts:10-24 | the check keeps the saved state exactly when it has the initial state's shape |
| StateStore.PersistedType | src/StateStore.ts:32 | saving keeps the `typeof` of every value other than undefined |
| StateStore.PersistedLookup | src/StateStore.ts:32 | a saved object's property is the saved value, or undefined when the property held undefined |
| StateStore.SavedIsCompatible | src/StateStore.ts:10-24 | a saved state (distinct keys, no undefined in arrays) has the shape of the state it came from |
| StateStore.SaveThenLoad | src/StateStore.ts:30-33 | a store created after saving a state whose object keys are distinct and whose arrays hold no `undefined`, with that state as its initial state, keeps what was saved |
| StateStore.UndefinedElementFallsBack | src/StateStore.ts:10-33 | an array holding `undefined` is saved with `null` in its place, and a store created after saving it, with it as the initial state, falls back to the initial state |
| StateStore.StateStore.constructor | src/StateStore.ts:6-26 | the state is the initial state when nothing is saved. Otherwise it is the saved state when that has the initial state's shape, and the initial state when it does not |
| StateStore.StateStore.GetState | src/StateStore.ts:27-29 | returns the current state |
| StateStore.StateStore.SetState | src/StateStore.ts:30-33 | the state becomes the new value and the store's key holds what JSON keeps of it; other keys are unchanged |
| ObjUtil.Define | src/ObjUtil.ts:6-10 | defining an existing key keeps its place and replaces its value; a new key goes last |
| ObjUtil.Entries | src/ObjUtil.ts:3-5 | one pair per own key, in key order, each with that key's value |
| ObjUtil.FromEntries | src/ObjUtil.ts:6-10 | the result is a well-formed object |
| ObjUtil.FromEntriesValues | src/ObjUtil.ts:6-10 | the built object has exactly the keys named, each with the value of the last pair naming it |
| ObjUtil.FromEntriesKeys | src/ObjUtil.ts:6-10 | with distinct keys, the object's keys are the pairs' keys in order |
| ObjUtil.FromEntriesOfEntries | src/ObjUtil.ts:3-10 | building an object from its entries gives the object back |
| ObjUtil.EntriesOfFromEntries | src/ObjUtil.ts:3-10 | the entries of an object built from pairs with distinct keys are those pairs |
| ObjUtil.MapValues | src/ObjUtil.ts:11-15 | the result is a well-formed object |
| ObjUtil.MapValuesMeaning | src/ObjUtil.ts:11-15 | the result has the same keys in the same order, and each value is the function applied to that key and its value |

## Left out

- The tsserver plugin itself (`init`, `create`, the language-service hooks in `blend-modules/src/index.ts:7-124`) is not part of this model.
- Reading the file (`fs.readFileSync`) is left out: the probe takes the file's bytes as a parameter. The `DataView` is taken to start at offset 0 of those bytes.
- Strings in the layout (`strz` names and types, block codes, the version) stay byte sequences: their UTF-8 or ASCII decoding is not modelled.
- The decoding of struct instances from block bodies by the schema (field values, pointers, arrays, nested structs) is not part of the layout and is not modelled. Bodies other than `DNA1` stay raw bytes.
- BlendLayout.SdnaStruct: an `sdna_index` past the end of the struct table gives JavaScript's `undefined`; the model reports it as the error `StructIndexOutOfRange`.
- BlendLayout.ReadBlendFile: all blocks are read first and their `DNA1` bodies are decoded afterwards. For a file with two faults (a bad schema body and a truncated later block), it reports the truncated block where an eager decoder would report the schema.
- `console.log` calls in `src/StateStore.ts` are left out: they only print.
- JSON text is not modelled. Local storage holds the value `JSON.parse` would give for the stored text, and `SetState` stores what `JSON.stringify` keeps. The empty-string case of `if (stored)` cannot arise from `JSON.stringify`.
- StateStore.StateStore.constructor: requires that the stored text parse (a saved top-level `undefined` is the text "undefined", on which `JSON.parse` throws) and that the check not read a property of `null`. The source lets both exceptions escape the constructor. `Run` returns `Throws` for the second, so the condition is stated exactly.
- Properties inherited through prototypes (such as `toString` on a saved object) are not modelled in property reads. Only own properties, `length`, and index keys of strings and arrays are.
- `for ... in` on objects lists integer-like keys first in JavaScript; the model enumerates an object's keys in the order given. The same holds for `Object.entries` in `ObjUtil`.
- Numbers are integers. `NaN`, infinities and fractions, and what `JSON.stringify` does with them, are not modelled. Nor are functions, symbols and `bigint` values in a state, or a `typeof` of "function".
- BlendSchemaFacts: the schema is proved to lie in its body as its image (decoding, then encoding, gives the bytes back). The converse for a whole schema or a whole section, that an aligned image decodes to that schema, is not proved; it is proved only for single fields, field tables and structs.
- StateStore.SaveThenLoad: holds only for states whose object keys are distinct and whose arrays hold no `undefined`. For an array holding `undefined`, `JSON.stringify` writes `null` and the check falls back to the initial state (`UndefinedElementFallsBack`).
- StateStore.StateStore.constructor: an object value with a repeated key is not a JavaScript object. `for ... in` over such a value would visit each of its fields, while a property read finds the first one; on objects with distinct keys the two agree (`MembersRead`).
- BlendDecoder: the struct table is read by the generic table loop with `ReadStruct` as its item reader. `DecodeStruct` is the struct decoder with its own field loop, proved equal to `ReadStruct` on its own.
- ObjUtil.MapValues: the callback is a pure total function; exceptions or side effects in it are not modelled. Symbol keys, which `Object.entries` skips, are not modelled.

## Findings

| source | as written | input that shows it | evidently intended | confidence | as-written member | corrected member |
|---|---|---|---|---|---|---|
| blend-modules/src/index.ts:166-170 | `parseBlendFile` reads the version as a `str` field, a length byte followed by that many characters | any real file header, e.g. `BLENDER-v280`: byte 9 is `'2'` (50), so the probe reads 50 characters as the version, or throws past the end | the version is the three fixed bytes after the two flags, as in the file's own layout (`index.ts:228-234`), and the header ends at offset 12 | not executed | BlendProbe.ProbeMisreadsVersion | BlendProbe.HeaderProbeReadsHeader |
