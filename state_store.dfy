/**
  A store that keeps an application's state in the browser's local storage
  under one key.  When a store is created and a saved state exists, the saved
  state is used only if it has the same shape as the initial state: every
  property the initial state has, walked through nested objects, must have
  the same `typeof` in the saved state.  Otherwise the initial state is used.

  Values are the JavaScript values that can appear in such a state.  Local
  storage is modelled as a map from keys to the value that `JSON.parse`
  yields for the text stored there.
*/
module StateStore {
  import opened Wrappers
  import opened JsText

  datatype Value =
    | Undefined
    | Null
    | Bool(b: bool)
    | Num(n: int)
    | Str(s: string)
    | Arr(elems: seq<Value>)
    | Obj(fields: seq<Field>)

  /** An own property of an object, in enumeration order. */
  datatype Field = Field(key: string, value: Value)

  /** The result of JavaScript's `typeof`; note that `typeof null` is "object". */
  function TypeOf(v: Value): (r: string)
    ensures r == "object" <==> v.Null? || v.Arr? || v.Obj?
  {
    match v
    case Undefined => "undefined"
    case Null => "object"
    case Bool(_) => "boolean"
    case Num(_) => "number"
    case Str(_) => "string"
    case Arr(_) => "object"
    case Obj(_) => "object"
  }

  predicate IsObject(v: Value)
  {
    TypeOf(v) == "object"
  }

  /** The value of the first property named `key`, or undefined. */
  function Lookup(fs: seq<Field>, key: string): (r: Value)
    ensures (forall i :: 0 <= i < |fs| ==> fs[i].key != key) ==> r == Undefined
  {
    if fs == [] then Undefined
    else if fs[0].key == key then fs[0].value
    else Lookup(fs[1..], key)
  }

  /** The property read `v[key]`; `None` is the TypeError thrown when `v` is
      null or undefined.  Strings and arrays answer "length" and their
      canonical index keys; booleans and numbers have no own properties. */
  function Get(v: Value, key: string): (r: Option<Value>)
    ensures r.None? <==> v.Undefined? || v.Null?
    ensures v.Obj? ==> r == Some(Lookup(v.fields, key))
  {
    match v
    case Undefined => None
    case Null => None
    case Bool(_) => Some(Undefined)
    case Num(_) => Some(Undefined)
    case Str(s) =>
      if key == "length" then Some(Num(|s|))
      else
        (match ParseIndex(key)
         case Some(i) => if i < |s| then Some(Str([s[i]])) else Some(Undefined)
         case None => Some(Undefined))
    case Arr(e) =>
      if key == "length" then Some(Num(|e|))
      else
        (match ParseIndex(key)
         case Some(i) => if i < |e| then Some(e[i]) else Some(Undefined)
         case None => Some(Undefined))
    case Obj(fs) => Some(Lookup(fs, key))
  }

  /** What `for (const key in v)` enumerates, paired with `v[key]`: an
      object's own properties, or the index keys of an array or string. */
  function Members(v: Value): (m: seq<(string, Value)>)
  {
    match v
    case Obj(fs) => seq(|fs|, i requires 0 <= i < |fs| => (fs[i].key, fs[i].value))
    case Arr(e) => seq(|e|, i requires 0 <= i < |e| => (Decimal(i), e[i]))
    case Str(s) => seq(|s|, i requires 0 <= i < |s| => (Decimal(i), Str([s[i]])))
    case _ => []
  }

  predicate DistinctKeys(fs: seq<Field>)
  {
    forall i, j :: 0 <= i < j < |fs| ==> fs[i].key != fs[j].key
  }

  lemma {:induction false} LookupAt(fs: seq<Field>, k: nat)
    requires k < |fs| && DistinctKeys(fs)
    ensures Lookup(fs, fs[k].key) == fs[k].value
    decreases k
  {
    if k > 0 {
      assert fs[0].key != fs[k].key;
      assert fs[1..][k - 1] == fs[k];
      LookupAt(fs[1..], k - 1);
    }
  }

  /** For an object whose keys are distinct (as every JavaScript object's
      are), an array or a string, each enumerated key reads back its member. */
  lemma MembersRead(v: Value, k: nat)
    requires v.Obj? ==> DistinctKeys(v.fields)
    requires k < |Members(v)|
    ensures Get(v, Members(v)[k].0) == Some(Members(v)[k].1)
  {
    match v
    case Obj(fs) =>
      LookupAt(fs, k);
    case Arr(e) =>
      DecimalRoundTrip(k);
      assert Decimal(k)[0] != "length"[0];
    case Str(s) =>
      DecimalRoundTrip(k);
      assert Decimal(k)[0] != "length"[0];
  }

  // ---------------------------------------------------------------------
  // Sizes, which bound the work of the shape check

  function Size(v: Value): nat
    decreases v
  {
    match v
    case Arr(e) => 1 + ElemsSize(e, 0)
    case Obj(fs) => 1 + FieldsSize(fs, 0)
    case _ => 1
  }

  function ElemsSize(e: seq<Value>, j: nat): nat
    requires j <= |e|
    decreases e, |e| - j
  {
    if j == |e| then 0 else Size(e[j]) + ElemsSize(e, j + 1)
  }

  function FieldsSize(fs: seq<Field>, j: nat): nat
    requires j <= |fs|
    decreases fs, |fs| - j
  {
    if j == |fs| then 0 else Size(fs[j].value) + FieldsSize(fs, j + 1)
  }

  /** The size a member adds to the worklist when it is pushed. */
  function Weight(v: Value): nat
  {
    if IsObject(v) then Size(v) else 0
  }

  /** The weight of the members from `j` on. */
  function Budget(m: seq<(string, Value)>, j: nat): nat
    requires j <= |m|
    decreases |m| - j
  {
    if j == |m| then 0 else Weight(m[j].1) + Budget(m, j + 1)
  }

  lemma {:induction false} BudgetAtLeast(m: seq<(string, Value)>, j: nat, k: nat)
    requires j <= k < |m|
    ensures Weight(m[k].1) <= Budget(m, j)
    decreases k - j
  {
    if j < k {
      BudgetAtLeast(m, j + 1, k);
    }
  }

  lemma {:induction false} BudgetOfFields(fs: seq<Field>, j: nat)
    requires j <= |fs|
    ensures Budget(Members(Obj(fs)), j) <= FieldsSize(fs, j)
    decreases |fs| - j
  {
    if j < |fs| {
      BudgetOfFields(fs, j + 1);
    }
  }

  lemma {:induction false} BudgetOfElems(e: seq<Value>, j: nat)
    requires j <= |e|
    ensures Budget(Members(Arr(e)), j) <= ElemsSize(e, j)
    decreases |e| - j
  {
    if j < |e| {
      BudgetOfElems(e, j + 1);
    }
  }

  lemma {:induction false} BudgetOfChars(s: string, j: nat)
    requires j <= |s|
    ensures Budget(Members(Str(s)), j) == 0
    decreases |s| - j
  {
    if j < |s| {
      BudgetOfChars(s, j + 1);
    }
  }

  /** The object members of a value are smaller, in total, than the value. */
  lemma BudgetBelowSize(v: Value)
    ensures Budget(Members(v), 0) < Size(v)
  {
    match v
    case Obj(fs) => BudgetOfFields(fs, 0);
    case Arr(e) => BudgetOfElems(e, 0);
    case Str(s) => BudgetOfChars(s, 0);
    case _ =>
  }

  lemma MembersSmaller(v: Value)
    ensures forall k :: 0 <= k < |Members(v)| && IsObject(Members(v)[k].1) ==> Size(Members(v)[k].1) < Size(v)
  {
    BudgetBelowSize(v);
    forall k | 0 <= k < |Members(v)| && IsObject(Members(v)[k].1)
      ensures Size(Members(v)[k].1) < Size(v)
    {
      BudgetAtLeast(Members(v), 0, k);
    }
  }

  // ---------------------------------------------------------------------
  // The shape check as the constructor runs it, and what it decides

  /** How the check ends: the saved state is kept, the initial state is
      used instead, or a property of null is read and a TypeError escapes. */
  datatype Verdict = Keep | Fallback | Throws

  /** Pairs of (saved, initial) values still to be compared; the last one is
      taken first. */
  type Work = seq<(Value, Value)>

  function WorkSize(work: Work): nat
  {
    if work == [] then 0 else WorkSize(work[..|work| - 1]) + Size(work[|work| - 1].1)
  }

  lemma WorkPush(work: Work, p: (Value, Value))
    ensures WorkSize(work + [p]) == WorkSize(work) + Size(p.1)
  {
    assert (work + [p])[..|work|] == work;
  }

  /** The outer loop: take the last pair and compare its members. */
  function Run(work: Work): Verdict
    decreases WorkSize(work), 0
  {
    if work == [] then Keep
    else
      var last := work[|work| - 1];
      BudgetBelowSize(last.1);
      Scan(last.0, Members(last.1), 0, work[..|work| - 1])
  }

  /** The inner loop over the members of one initial value, from `j` on. */
  function Scan(stored: Value, m: seq<(string, Value)>, j: nat, work: Work): Verdict
    requires j <= |m|
    decreases WorkSize(work) + Budget(m, j), |m| - j + 1
  {
    if j == |m| then Run(work)
    else
      var key := m[j].0;
      var initial := m[j].1;
      match Get(stored, key)
      case None => Throws
      case Some(saved) =>
        if TypeOf(initial) != TypeOf(saved) then Fallback
        else if IsObject(initial) then
          WorkPush(work, (saved, initial));
          Scan(stored, m, j + 1, work + [(saved, initial)])
        else Scan(stored, m, j + 1, work)
  }

  /** The saved value has the shape of the initial one: each member of the
      initial value can be read from the saved value, has the same `typeof`
      there, and, when it is an object (or null), has its own shape kept.
      Properties only the saved value has are not looked at. */
  predicate Compatible(saved: Value, initial: Value)
    decreases Size(initial)
  {
    MembersSmaller(initial);
    var m := Members(initial);
    forall k :: 0 <= k < |m| ==>
      && Get(saved, m[k].0).Some?
      && TypeOf(Get(saved, m[k].0).value) == TypeOf(m[k].1)
      && (IsObject(m[k].1) ==> Compatible(Get(saved, m[k].0).value, m[k].1))
  }

  /** One member of an initial value is found, with its shape, in `saved`. */
  predicate Agrees(saved: Value, member: (string, Value))
  {
    && Get(saved, member.0).Some?
    && TypeOf(Get(saved, member.0).value) == TypeOf(member.1)
    && (IsObject(member.1) ==> Compatible(Get(saved, member.0).value, member.1))
  }

  predicate AgreesFrom(saved: Value, m: seq<(string, Value)>, j: nat)
    requires j <= |m|
  {
    forall k :: j <= k < |m| ==> Agrees(saved, m[k])
  }

  predicate AllCompatible(work: Work)
  {
    forall i :: 0 <= i < |work| ==> Compatible(work[i].0, work[i].1)
  }

  lemma CompatibleMembers(saved: Value, initial: Value)
    ensures Compatible(saved, initial) <==> AgreesFrom(saved, Members(initial), 0)
  {
  }

  lemma AgreesFromStep(saved: Value, m: seq<(string, Value)>, j: nat)
    requires j < |m|
    ensures AgreesFrom(saved, m, j) <==> Agrees(saved, m[j]) && AgreesFrom(saved, m, j + 1)
  {
  }

  lemma AllCompatibleLast(work: Work)
    requires work != []
    ensures AllCompatible(work) <==>
      AllCompatible(work[..|work| - 1]) && Compatible(work[|work| - 1].0, work[|work| - 1].1)
  {
    var rest := work[..|work| - 1];
    assert forall i :: 0 <= i < |rest| ==> rest[i] == work[i];
  }

  lemma {:induction false} RunKeeps(work: Work)
    ensures Run(work) == Keep <==> AllCompatible(work)
    decreases WorkSize(work), 0, 0
  {
    if work != [] {
      var last := work[|work| - 1];
      BudgetBelowSize(last.1);
      ScanKeeps(last.0, Members(last.1), 0, work[..|work| - 1]);
      CompatibleMembers(last.0, last.1);
      AllCompatibleLast(work);
    }
  }

  lemma {:induction false} ScanKeeps(stored: Value, m: seq<(string, Value)>, j: nat, work: Work)
    requires j <= |m|
    ensures Scan(stored, m, j, work) == Keep <==> AgreesFrom(stored, m, j) && AllCompatible(work)
    decreases WorkSize(work) + Budget(m, j), |m| - j + 1, 1
  {
    if j == |m| {
      RunKeeps(work);
    } else {
      AgreesFromStep(stored, m, j);
      var read := Get(stored, m[j].0);
      if read.Some? && TypeOf(m[j].1) == TypeOf(read.value) {
        if IsObject(m[j].1) {
          ScanKeepsPush(stored, m, j, work, read.value);
        } else {
          ScanKeeps(stored, m, j + 1, work);
        }
      }
    }
  }

  /** The step of `ScanKeeps` where an object member is pushed. */
  lemma {:induction false} ScanKeepsPush(stored: Value, m: seq<(string, Value)>, j: nat, work: Work, saved: Value)
    requires j < |m| && Get(stored, m[j].0) == Some(saved)
    requires TypeOf(m[j].1) == TypeOf(saved) && IsObject(m[j].1)
    ensures Scan(stored, m, j, work) == Keep <==>
      Agrees(stored, m[j]) && AgreesFrom(stored, m, j + 1) && AllCompatible(work)
    decreases WorkSize(work) + Budget(m, j), |m| - j + 1, 0
  {
    var pushed := work + [(saved, m[j].1)];
    WorkPush(work, (saved, m[j].1));
    ScanKeeps(stored, m, j + 1, pushed);
    assert pushed[..|work|] == work;
    AllCompatibleLast(pushed);
  }

  /** The check keeps the saved state exactly when it has the initial state's shape. */
  lemma CheckKeeps(saved: Value, initial: Value)
    ensures Run([(saved, initial)]) == Keep <==> Compatible(saved, initial)
  {
    RunKeeps([(saved, initial)]);
  }

  // ---------------------------------------------------------------------
  // What JSON.stringify followed by JSON.parse gives back

  /** Object properties holding undefined are dropped and undefined array
      elements become null; everything else is kept. */
  function Persisted(v: Value): Value
    decreases v
  {
    match v
    case Arr(e) => Arr(seq(|e|, i requires 0 <= i < |e| => if e[i].Undefined? then Null else Persisted(e[i])))
    case Obj(fs) => Obj(PersistedFields(fs, 0))
    case _ => v
  }

  function PersistedFields(fs: seq<Field>, j: nat): seq<Field>
    requires j <= |fs|
    decreases fs, |fs| - j
  {
    if j == |fs| then []
    else if fs[j].value.Undefined? then PersistedFields(fs, j + 1)
    else [Field(fs[j].key, Persisted(fs[j].value))] + PersistedFields(fs, j + 1)
  }

  /** A state that survives being saved: object keys are distinct and no
      array holds undefined, all the way down. */
  predicate Saveable(v: Value)
    decreases v
  {
    match v
    case Arr(e) => forall i :: 0 <= i < |e| ==> !e[i].Undefined? && Saveable(e[i])
    case Obj(fs) => DistinctKeys(fs) && forall i :: 0 <= i < |fs| ==> Saveable(fs[i].value)
    case _ => true
  }

  lemma PersistedType(v: Value)
    requires !v.Undefined?
    ensures TypeOf(Persisted(v)) == TypeOf(v)
  {
  }

  /** Reading a property of a saved object finds the saved property, or
      undefined when the property held undefined. */
  lemma LookupCons(f: Field, fs: seq<Field>, key: string)
    ensures Lookup([f] + fs, key) == if f.key == key then f.value else Lookup(fs, key)
  {
    assert ([f] + fs)[1..] == fs;
  }

  lemma {:induction false} PersistedLookup(fs: seq<Field>, j: nat, k: nat)
    requires DistinctKeys(fs) && j <= k < |fs|
    ensures Lookup(PersistedFields(fs, j), fs[k].key)
         == if fs[k].value.Undefined? then Undefined else Persisted(fs[k].value)
    decreases |fs| - j
  {
    var key := fs[k].key;
    if j < k {
      assert fs[j].key != key;
      PersistedStep(fs, j, key);
      PersistedLookup(fs, j + 1, k);
    } else {
      assert forall i :: k + 1 <= i < |fs| ==> fs[i].key != key;
      KeyAbsent(fs, k + 1, key);
      PersistedStep(fs, k, key);
    }
  }

  /** Saving one field: it is dropped when it holds undefined, and otherwise
      found first by a read of its own key. */
  lemma PersistedStep(fs: seq<Field>, j: nat, key: string)
    requires j < |fs|
    ensures Lookup(PersistedFields(fs, j), key)
         == if !fs[j].value.Undefined? && fs[j].key == key then Persisted(fs[j].value)
            else Lookup(PersistedFields(fs, j + 1), key)
  {
    if !fs[j].value.Undefined? {
      LookupCons(Field(fs[j].key, Persisted(fs[j].value)), PersistedFields(fs, j + 1), key);
    }
  }

  lemma {:induction false} KeyAbsent(fs: seq<Field>, j: nat, key: string)
    requires j <= |fs| && forall i :: j <= i < |fs| ==> fs[i].key != key
    ensures Lookup(PersistedFields(fs, j), key) == Undefined
    decreases |fs| - j
  {
    if j < |fs| {
      KeyAbsent(fs, j + 1, key);
      PersistedStep(fs, j, key);
    }
  }

  /** A saveable state, once saved, has its own shape: a store created with
      that state as its initial state keeps what was saved. */
  lemma {:induction false} SavedIsCompatible(v: Value)
    requires Saveable(v)
    ensures Compatible(Persisted(v), v)
    decreases v
  {
    MembersSmaller(v);
    var m := Members(v);
    forall k | 0 <= k < |m|
      ensures Agrees(Persisted(v), m[k])
    {
      match v
      case Obj(fs) =>
        PersistedLookup(fs, 0, k);
        if !fs[k].value.Undefined? {
          PersistedType(fs[k].value);
          if IsObject(fs[k].value) {
            SavedIsCompatible(fs[k].value);
          }
        }
      case Arr(e) =>
        MembersRead(Persisted(v), k);
        PersistedType(e[k]);
        if IsObject(e[k]) {
          SavedIsCompatible(e[k]);
        }
      case Str(s) =>
        MembersRead(v, k);
    }
  }

  // ---------------------------------------------------------------------
  // The store

  /** The browser's local storage, holding the parsed form of each saved text. */
  class Storage {
    var items: map<string, Value>

    constructor (items: map<string, Value>)
      ensures this.items == items
    {
      this.items := items;
    }
  }

  class StateStore {
    const key: string
    const storage: Storage
    var state: Value

    /** Use the saved state when one exists and has the initial state's
        shape, otherwise the initial state.  The saved text must parse (it
        is not "undefined") and the check must not read a property of null. */
    constructor (key: string, initial: Value, storage: Storage)
      requires key in storage.items ==>
        storage.items[key] != Undefined && Run([(storage.items[key], initial)]) != Throws
      ensures this.key == key && this.storage == storage
      ensures key !in storage.items ==> state == initial
      ensures key in storage.items ==>
        state == if Compatible(storage.items[key], initial) then storage.items[key] else initial
    {
      this.key := key;
      this.storage := storage;
      if key in storage.items {
        var saved := storage.items[key];
        ghost var top: Work := [(saved, initial)];
        var result := saved;
        var objectsToCheck: Work := [(saved, initial)];
        label check: while |objectsToCheck| > 0
          invariant result == saved
          invariant Run(top) == Run(objectsToCheck)
          decreases WorkSize(objectsToCheck)
        {
          var pair := objectsToCheck[|objectsToCheck| - 1];
          objectsToCheck := objectsToCheck[..|objectsToCheck| - 1];
          var stored, init := pair.0, pair.1;
          var members := Members(init);
          BudgetBelowSize(init);
          ghost var rest := objectsToCheck;
          var j := 0;
          while j < |members|
            invariant j <= |members| && result == saved
            invariant Run(top) == Scan(stored, members, j, objectsToCheck)
            invariant WorkSize(objectsToCheck) + Budget(members, j) == WorkSize(rest) + Budget(members, 0)
          {
            var member := members[j];
            var read := Get(stored, member.0);
            if read.None? {
              assert false;
            }
            if TypeOf(member.1) != TypeOf(read.value) {
              result := initial;
              break check;
            }
            if IsObject(member.1) {
              WorkPush(objectsToCheck, (read.value, member.1));
              objectsToCheck := objectsToCheck + [(read.value, member.1)];
            }
            j := j + 1;
          }
        }
        CheckKeeps(saved, initial);
        state := result;
      } else {
        state := initial;
      }
    }

    method GetState() returns (s: Value)
      ensures s == state
    {
      s := state;
    }

    /** Replace the state and save it; what is saved is what JSON keeps of it. */
    method SetState(s: Value)
      modifies this, storage
      ensures state == s
      ensures storage.items == old(storage.items)[key := Persisted(s)]
    {
      state := s;
      storage.items := storage.items[key := Persisted(s)];
    }
  }

  /** A store created after `SetState(v)` with `v` as its initial state
      keeps the saved value, which is `v` with what JSON drops removed. */
  lemma SaveThenLoad(v: Value)
    requires Saveable(v) && !v.Undefined?
    ensures Persisted(v) != Undefined
    ensures Run([(Persisted(v), v)]) == Keep
  {
    SavedIsCompatible(v);
    CheckKeeps(Persisted(v), v);
  }

  /** Why `SaveThenLoad` needs its condition: an array holding undefined is
      saved with null in its place, and a store created with the array as
      its initial state falls back to that initial state. */
  lemma UndefinedElementFallsBack()
    ensures Persisted(Arr([Undefined])) == Arr([Null])
    ensures Run([(Persisted(Arr([Undefined])), Arr([Undefined]))]) == Fallback
  {
    var saved, initial := Persisted(Arr([Undefined])), Arr([Undefined]);
    assert saved == Arr([Null]);
    var m := Members(initial);
    assert m == [(Decimal(0), Undefined)];
    MembersRead(saved, 0);
    assert Get(saved, m[0].0) == Some(Null);
    assert [(saved, initial)][..0] == [];
    assert Run([(saved, initial)]) == Scan(saved, m, 0, []);
  }
}
