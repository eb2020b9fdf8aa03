/**
  Byte-level reading for the `.blend` layout: the stream primitives a Kaitai
  Struct decoder uses (fixed-size byte runs, little-endian `u1`/`u2`/`u4`,
  `contents` checks, NUL-terminated `strz`, and `repeat-expr` repetition),
  each as a function from a byte sequence and a position to a value and the
  position after it.
*/
module BlendBytes {
  import opened Wrappers

  type byte = x: int | 0 <= x < 256

  /** Why a decode stopped. Positions are relative to the stream being read
      (the whole file, or the body of the block being decoded). */
  datatype Error =
    | EndOfStream(pos: nat, wanted: nat)               // fewer than `wanted` bytes remain at `pos`
    | ContentsMismatch(pos: nat, expected: seq<byte>)  // a fixed `contents` field differs
    | MissingTerminator(pos: nat)                      // a `strz` at `pos` has no NUL before the end
    | TooFewBlocks(count: nat)                         // `blocks[blocks.size - 2]` does not exist
    | SchemaBlockNotDna1(index: nat)                   // the block at that index has no `dna1_body`
    | StructIndexOutOfRange(index: nat, count: nat)    // `sdna_structs[sdna_index]` does not exist

  /** The outcome of reading one item at a position: the item and the
      position just after it, or the reason the read failed. */
  datatype Parse<+T> = Ok(value: T, next: nat) | Fail(error: Error) {
    predicate IsFailure() { Fail? }
    function PropagateFailure<U>(): Parse<U>
      requires Fail?
    {
      Fail(error)
    }
    function Extract(): (T, nat)
      requires Ok?
    {
      (value, next)
    }
  }

  /** The outcome of a computation that does not move a cursor. */
  datatype Result<+T> = Success(value: T) | Failure(error: Error) {
    predicate IsFailure() { Failure? }
    function PropagateFailure<U>(): Result<U>
      requires Failure?
    {
      Failure(error)
    }
    function Extract(): T
      requires Success?
    {
      value
    }
  }

  /** `acc` followed by the items a successful parse produced. */
  function Prepend<T>(acc: seq<T>, r: Parse<seq<T>>): Parse<seq<T>>
  {
    match r
    case Ok(v, q) => Ok(acc + v, q)
    case Fail(e) => Fail(e)
  }

  // ---------------------------------------------------------------------------
  // Primitive reads

  /** `n` raw bytes (a field with `size: n` and no type). */
  function Bytes(data: seq<byte>, pos: nat, n: nat): (r: Parse<seq<byte>>)
    ensures r.Ok? <==> pos + n <= |data|
    ensures r.Ok? ==> |r.value| == n && r.next == pos + n && r.value == data[pos..r.next]
  {
    if pos + n <= |data| then Ok(data[pos..pos + n], pos + n) else Fail(EndOfStream(pos, n))
  }

  /** Unsigned 8-bit integer: the byte at the position. */
  function U1(data: seq<byte>, pos: nat): (r: Parse<byte>)
    ensures r.Ok? <==> pos < |data|
    ensures r.Ok? ==> r.next == pos + 1 && [r.value] == data[pos..r.next]
  {
    if pos < |data| then Ok(data[pos], pos + 1) else Fail(EndOfStream(pos, 1))
  }

  /** Unsigned 16-bit little-endian integer. */
  function U2(data: seq<byte>, pos: nat): (r: Parse<nat>)
    ensures r.Ok? <==> pos + 2 <= |data|
    ensures r.Ok? ==> r.next == pos + 2 && r.value < 0x1_0000
  {
    if pos + 2 <= |data| then Ok(data[pos] as int + 0x100 * data[pos + 1] as int, pos + 2)
    else Fail(EndOfStream(pos, 2))
  }

  /** Unsigned 32-bit little-endian integer. */
  function U4(data: seq<byte>, pos: nat): (r: Parse<nat>)
    ensures r.Ok? <==> pos + 4 <= |data|
    ensures r.Ok? ==> r.next == pos + 4 && r.value < 0x1_0000_0000
  {
    if pos + 4 <= |data| then
      Ok(data[pos] as int + 0x100 * (data[pos + 1] as int + 0x100 * (data[pos + 2] as int + 0x100 * data[pos + 3] as int)), pos + 4)
    else Fail(EndOfStream(pos, 4))
  }

  /** The two bytes a 16-bit integer was read from are its encoding. */
  lemma U2Image(data: seq<byte>, pos: nat)
    requires U2(data, pos).Ok?
    ensures Le2(U2(data, pos).value) == data[pos..pos + 2]
  {
  }

  /** The four bytes a 32-bit integer was read from are its encoding. */
  lemma U4Image(data: seq<byte>, pos: nat)
    requires U4(data, pos).Ok?
    ensures Le4(U4(data, pos).value) == data[pos..pos + 4]
  {
    Le4Of(data[pos], data[pos + 1], data[pos + 2], data[pos + 3]);
    assert data[pos..pos + 4] == [data[pos], data[pos + 1], data[pos + 2], data[pos + 3]];
  }

  /** A field with fixed `contents`: exactly the bytes `expected`. */
  function Contents(data: seq<byte>, pos: nat, expected: seq<byte>): (r: Parse<seq<byte>>)
    ensures r.Ok? <==> pos + |expected| <= |data| && data[pos..pos + |expected|] == expected
    ensures r.Ok? ==> r.value == expected && r.next == pos + |expected|
  {
    var b :- Bytes(data, pos, |expected|);
    if b.0 == expected then Ok(expected, b.1) else Fail(ContentsMismatch(pos, expected))
  }

  /** The position of the first NUL byte at or after `pos`, if any. */
  function NulIndex(data: seq<byte>, pos: nat): (r: Option<nat>)
    decreases |data| - pos
    ensures r.Some? ==> pos <= r.value < |data| && data[r.value] == 0
    ensures r.Some? ==> forall j :: pos <= j < r.value ==> data[j] != 0
    ensures r.None? ==> forall j :: pos <= j < |data| ==> data[j] != 0
  {
    if pos >= |data| then None
    else if data[pos] == 0 then Some(pos)
    else NulIndex(data, pos + 1)
  }

  /** A NUL-terminated string (`strz`): the bytes before the first NUL; the
      NUL itself is consumed. Reaching the end of the stream first fails. */
  function Strz(data: seq<byte>, pos: nat): (r: Parse<seq<byte>>)
    ensures r.Ok? ==> pos < r.next <= |data| && data[pos..r.next] == r.value + [0] && 0 !in r.value
    ensures r.Fail? ==> forall j :: pos <= j < |data| ==> data[j] != 0
  {
    match NulIndex(data, pos)
    case Some(z) =>
      assert forall j :: 0 <= j < z - pos ==> data[pos..z][j] == data[pos + j];
      Ok(data[pos..z], z + 1)
    case None => Fail(MissingTerminator(pos))
  }

  /** `repeat: expr` with `repeat-expr: n`: `n` consecutive items. */
  function Repeat<T>(item: (seq<byte>, nat) -> Parse<T>, data: seq<byte>, pos: nat, n: nat): (r: Parse<seq<T>>)
    decreases n
    ensures r.Ok? ==> |r.value| == n
  {
    if n == 0 then Ok([], pos)
    else
      var x :- item(data, pos);
      var rest :- Repeat(item, data, x.1, n - 1);
      Ok([x.0] + rest.0, rest.1)
  }

  // ---------------------------------------------------------------------------
  // Encoders: the byte images the readers above decode

  function Le2(n: nat): seq<byte>
    requires n < 0x1_0000
  {
    [n % 0x100, n / 0x100]
  }

  function Le4(n: nat): seq<byte>
    requires n < 0x1_0000_0000
  {
    [n % 0x100, (n / 0x100) % 0x100, (n / 0x100 / 0x100) % 0x100, n / 0x100 / 0x100 / 0x100]
  }

  lemma DivMod256(lo: int, hi: int)
    requires 0 <= lo < 0x100 && 0 <= hi
    ensures (lo + 0x100 * hi) % 0x100 == lo && (lo + 0x100 * hi) / 0x100 == hi
  {
  }

  lemma Le4Of(b0: byte, b1: byte, b2: byte, b3: byte)
    ensures b0 + 0x100 * (b1 + 0x100 * (b2 + 0x100 * b3)) < 0x1_0000_0000
    ensures Le4(b0 + 0x100 * (b1 + 0x100 * (b2 + 0x100 * b3))) == [b0, b1, b2, b3]
  {
    var w2 := b2 + 0x100 * b3;
    var w1 := b1 + 0x100 * w2;
    DivMod256(b0, w1);
    DivMod256(b1, w2);
    DivMod256(b2, b3);
  }

  /** Strings written one after another, each followed by a NUL byte. */
  function NulJoin(xs: seq<seq<byte>>): seq<byte>
  {
    if xs == [] then [] else xs[0] + [0] + NulJoin(xs[1..])
  }

  predicate Below(xs: seq<nat>, bound: nat)
  {
    forall i :: 0 <= i < |xs| ==> xs[i] < bound
  }

  function Le2s(xs: seq<nat>): (img: seq<byte>)
    requires Below(xs, 0x1_0000)
    ensures |img| == 2 * |xs|
  {
    if xs == [] then [] else Le2(xs[0]) + Le2s(xs[1..])
  }

  // ---------------------------------------------------------------------------
  // Properties of the readers

  /** Reading a 16-bit integer back from its encoding gives the integer. */
  lemma U2OfLe2(n: nat, rest: seq<byte>)
    requires n < 0x1_0000
    ensures U2(Le2(n) + rest, 0) == Ok(n, 2)
  {
  }

  /** Reading a 32-bit integer back from its encoding gives the integer. */
  lemma U4OfLe4(n: nat, rest: seq<byte>)
    requires n < 0x1_0000_0000
    ensures U4(Le4(n) + rest, 0) == Ok(n, 4)
  {
  }

  /** The encoding of `n` found at `pos` reads as `n`. */
  lemma U2At(data: seq<byte>, pos: nat, n: nat)
    requires n < 0x1_0000 && pos + 2 <= |data| && data[pos..pos + 2] == Le2(n)
    ensures U2(data, pos) == Ok(n, pos + 2)
  {
    assert data[pos] == data[pos..pos + 2][0] && data[pos + 1] == data[pos..pos + 2][1];
  }

  lemma U4At(data: seq<byte>, pos: nat, n: nat)
    requires n < 0x1_0000_0000 && pos + 4 <= |data| && data[pos..pos + 4] == Le4(n)
    ensures U4(data, pos) == Ok(n, pos + 4)
  {
    assert data[pos..] == Le4(n) + data[pos + 4..];
    U4OfLe4(n, data[pos + 4..]);
    assert forall k :: 0 <= k < 4 ==> data[pos + k] == data[pos..][k];
  }

  lemma SliceSplit(data: seq<byte>, a: nat, b: nat, c: nat)
    requires a <= b <= c <= |data|
    ensures data[a..c] == data[a..b] + data[b..c]
  {
  }

  /** Two pieces found one after the other make up their concatenation. */
  lemma Joined(data: seq<byte>, p0: nat, p1: nat, p2: nat, a: seq<byte>, b: seq<byte>)
    requires p0 <= p1 <= p2 <= |data| && data[p0..p1] == a && data[p1..p2] == b
    ensures data[p0..p2] == a + b
  {
    SliceSplit(data, p0, p1, p2);
  }

  /** A concatenation found between two positions splits where its first piece ends. */
  lemma Apart(data: seq<byte>, p0: nat, p1: nat, p2: nat, a: seq<byte>, b: seq<byte>)
    requires p0 <= p1 <= p2 <= |data| && p1 - p0 == |a| && data[p0..p2] == a + b
    ensures data[p0..p1] == a && data[p1..p2] == b
  {
    assert data[p0..p1] == data[p0..p2][..|a|] == (a + b)[..|a|] == a;
    assert data[p1..p2] == data[p0..p2][|a|..] == (a + b)[|a|..] == b;
  }

  /** Where the two halves of a concatenation found at `pos` lie. */
  lemma ConcatAt(data: seq<byte>, pos: nat, a: seq<byte>, b: seq<byte>)
    requires pos + |a + b| <= |data| && data[pos..pos + |a + b|] == a + b
    ensures data[pos..pos + |a|] == a && data[pos + |a|..pos + |a| + |b|] == b
  {
    assert data[pos..pos + |a|] == data[pos..pos + |a + b|][..|a|];
    assert data[pos + |a|..pos + |a| + |b|] == data[pos..pos + |a + b|][|a|..];
  }

  /** A table of `n` strings occupies exactly the NUL-joined strings. */
  lemma {:induction false} StrzTableBytes(data: seq<byte>, pos: nat, n: nat)
    requires pos <= |data|
    requires Repeat(Strz, data, pos, n).Ok?
    ensures var r := Repeat(Strz, data, pos, n);
      pos <= r.next <= |data| && data[pos..r.next] == NulJoin(r.value)
      && forall i :: 0 <= i < |r.value| ==> 0 !in r.value[i]
    decreases n
  {
    var r := Repeat(Strz, data, pos, n);
    if n == 0 {
      assert r == Ok([], pos);
    } else {
      var x := Strz(data, pos);
      var rest := Repeat(Strz, data, x.next, n - 1);
      StrzTableBytes(data, x.next, n - 1);
      assert r.value == [x.value] + rest.value;
      assert r.value[1..] == rest.value;
      SliceSplit(data, pos, x.next, r.next);
    }
  }

  /** A table of `n` strings reads back from their NUL-joined bytes. */
  lemma {:induction false} StrzTableOfNulJoin(xs: seq<seq<byte>>, pos: nat, end: nat, data: seq<byte>)
    requires forall i :: 0 <= i < |xs| ==> 0 !in xs[i]
    requires pos <= end <= |data| && data[pos..end] == NulJoin(xs)
    ensures Repeat(Strz, data, pos, |xs|) == Ok(xs, end)
    decreases |xs|
  {
    if xs != [] {
      var s := xs[0];
      var q := pos + |s| + 1;
      assert data[pos..q] == s + [0] && data[q..end] == NulJoin(xs[1..]) by {
        assert NulJoin(xs) == (s + [0]) + NulJoin(xs[1..]);
        Apart(data, pos, q, end, s + [0], NulJoin(xs[1..]));
      }
      StrzAt(data, pos, s);
      StrzTableOfNulJoin(xs[1..], q, end, data);
      RepeatCons(Strz, data, pos, |xs|, s, q, xs[1..], end);
      assert [s] + xs[1..] == xs;
    } else {
      assert NulJoin(xs) == [];
    }
  }

  /** An item followed by `n - 1` items is a run of `n` items. */
  lemma RepeatCons<T>(item: (seq<byte>, nat) -> Parse<T>, data: seq<byte>, pos: nat, n: nat,
                      x: T, q: nat, rest: seq<T>, end: nat)
    requires n > 0 && item(data, pos) == Ok(x, q) && Repeat(item, data, q, n - 1) == Ok(rest, end)
    ensures Repeat(item, data, pos, n) == Ok([x] + rest, end)
  {
  }

  /** One step of `repeat-expr`: an item, then the remaining `n - 1`. */
  lemma RepeatStep<T>(item: (seq<byte>, nat) -> Parse<T>, data: seq<byte>, pos: nat, n: nat)
    requires n > 0
    ensures var x := item(data, pos);
      Repeat(item, data, pos, n) == if x.Ok? then Prepend([x.value], Repeat(item, data, x.next, n - 1)) else Fail(x.error)
  {
  }

  /** A string followed by a NUL reads back as that string. */
  lemma StrzAt(data: seq<byte>, pos: nat, s: seq<byte>)
    requires 0 !in s
    requires pos + |s| + 1 <= |data| && data[pos..pos + |s| + 1] == s + [0]
    ensures Strz(data, pos) == Ok(s, pos + |s| + 1)
  {
    forall j | pos <= j < pos + |s|
      ensures data[j] != 0
    {
      assert data[j] == data[pos..pos + |s| + 1][j - pos] == s[j - pos];
    }
    assert data[pos + |s|] == data[pos..pos + |s| + 1][|s|] == 0;
    NulAt(data, pos, pos + |s|);
    assert data[pos..pos + |s|] == data[pos..pos + |s| + 1][..|s|];
  }

  lemma {:induction false} NulAt(data: seq<byte>, pos: nat, z: nat)
    requires pos <= z < |data| && data[z] == 0
    requires forall j :: pos <= j < z ==> data[j] != 0
    ensures NulIndex(data, pos) == Some(z)
    decreases z - pos
  {
    if pos < z {
      NulAt(data, pos + 1, z);
    }
  }

  /** A table of `n` 16-bit integers occupies exactly their encodings. */
  lemma {:induction false} U2TableBytes(data: seq<byte>, pos: nat, n: nat)
    requires pos <= |data|
    requires Repeat(U2, data, pos, n).Ok?
    ensures var r := Repeat(U2, data, pos, n);
      Below(r.value, 0x1_0000) && r.next == pos + 2 * n <= |data| && data[pos..r.next] == Le2s(r.value)
    decreases n
  {
    var r := Repeat(U2, data, pos, n);
    if n == 0 {
      assert r == Ok([], pos);
    } else {
      var x := U2(data, pos);
      var rest := Repeat(U2, data, x.next, n - 1);
      U2TableBytes(data, x.next, n - 1);
      U2Image(data, pos);
      assert r.value == [x.value] + rest.value;
      assert r.value[1..] == rest.value;
      SliceSplit(data, pos, x.next, r.next);
    }
  }

  /** A table of 16-bit integers reads back from their encodings. */
  lemma {:induction false} U2TableOfLe2s(xs: seq<nat>, pos: nat, end: nat, data: seq<byte>)
    requires Below(xs, 0x1_0000)
    requires pos <= end <= |data| && data[pos..end] == Le2s(xs)
    ensures Repeat(U2, data, pos, |xs|) == Ok(xs, end)
    decreases |xs|
  {
    if xs != [] {
      assert Below(xs[1..], 0x1_0000);
      assert data[pos..pos + 2] == Le2(xs[0]) && data[pos + 2..end] == Le2s(xs[1..]) by {
        Apart(data, pos, pos + 2, end, Le2(xs[0]), Le2s(xs[1..]));
      }
      U2At(data, pos, xs[0]);
      U2TableOfLe2s(xs[1..], pos + 2, end, data);
      RepeatCons(U2, data, pos, |xs|, xs[0], pos + 2, xs[1..], end);
      assert [xs[0]] + xs[1..] == xs;
    }
  }
}
