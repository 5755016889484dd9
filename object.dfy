/** Object utilities: deep copy, deep merge, reads and writes along a key
    path, and key selection. */
module ObjectUtils {

  import opened Wrappers
  import opened Ascii
  import opened Decimals
  import opened JsValues
  import DecimalValues

  // ---------------------------------------------------------------------
  // deepClone

  /** deepClone(obj): primitives and functions as they are, a new Date with
      the same timestamp, a new RegExp with the same source and flags, and
      arrays and own keys of objects copied recursively. */
  function DeepClone(v: Value): Value
    decreases v
  {
    match v
    case Date(time) => Date(time)
    case RegExp(source, flags) => RegExp(source, flags)
    case Arr(items) => Arr(seq(|items|, i requires 0 <= i < |items| => DeepClone(items[i])))
    case Obj(fields) => Obj(map k | k in fields :: DeepClone(fields[k]))
    case _ => v
  }

  /** The clone is structurally the value it copies. */
  lemma {:induction false} DeepCloneEqual(v: Value)
    ensures DeepClone(v) == v
    decreases v
  {
    match v
    case Arr(items) =>
      forall i | 0 <= i < |items| ensures DeepClone(items[i]) == items[i] {
        DeepCloneEqual(items[i]);
      }
    case Obj(fields) =>
      forall k | k in fields ensures DeepClone(fields[k]) == fields[k] {
        DeepCloneEqual(fields[k]);
      }
    case _ =>
  }

  // ---------------------------------------------------------------------
  // merge
  //
  // `plainOnly` selects between the merge as written (false) and the
  // corrected merge (true), which descends into plain objects only.

  /** The values merge descends into: as written, anything truthy whose
      typeof is 'object' and that is not an array, dates and regular
      expressions included. */
  predicate Descends(v: Value, plainOnly: bool) {
    if plainOnly then v.Obj? else v.Obj? || v.Date? || v.RegExp?
  }

  /** `result[key] || {}`; the corrected merge also starts from {} when the
      old value is not a plain object. */
  function Base(prev: Value, plainOnly: bool): Value {
    if plainOnly then (if prev.Obj? then prev else EmptyObject)
    else if Truthy(prev) then prev else EmptyObject
  }

  /** result[key] on the object being built. */
  function Lookup(m: map<string, Value>, k: string): Value {
    if k in m then m[k] else Undefined
  }

  /** The own entries of `c` with every value merge descends into copied:
      the object merge({}, c) builds (MergeIntoEmpty). */
  function CopyEntries(c: Value, plainOnly: bool): map<string, Value>
    decreases c, 0
  {
    match c
    case Obj(fields) => map k | k in fields :: Copy(fields[k], plainOnly)
    case Arr(items) =>
      map k | k in IndexEntries(items, (x: Value) => x) :: Copy(items[CanonicalIndex(k).value], plainOnly)
    case _ => OwnEntries(c)
  }

  function Copy(v: Value, plainOnly: bool): Value
    decreases v, 1
  {
    if Descends(v, plainOnly) then Obj(CopyEntries(v, plainOnly)) else v
  }

  /** One object of the forEach: each own key of `v` is written into
      `base`, merging recursively where merge descends. */
  function MergeIn(base: map<string, Value>, v: Value, plainOnly: bool): map<string, Value>
    decreases v, 0
  {
    match v
    case Obj(fields) =>
      map k | k in base.Keys + fields.Keys ::
        if k in fields then Combine(Lookup(base, k), fields[k], plainOnly) else base[k]
    case Arr(items) =>
      var index := IndexEntries(items, (x: Value) => x);
      map k | k in base.Keys + index.Keys ::
        if k in index then Combine(Lookup(base, k), items[CanonicalIndex(k).value], plainOnly) else base[k]
    case _ => base + OwnEntries(v)
  }

  /** The new value of a key: merge(result[key] || {}, value) where merge
      descends, the value itself otherwise. */
  function Combine(prev: Value, value: Value, plainOnly: bool): Value
    decreases value, 1
  {
    if Descends(value, plainOnly) then Obj(MergeIn(CopyEntries(Base(prev, plainOnly), plainOnly), value, plainOnly))
    else value
  }

  /** merge(...objects): the objects folded into {} from left to right. */
  function MergeAll(objects: seq<Value>, plainOnly: bool): map<string, Value> {
    if objects == [] then map[]
    else MergeIn(MergeAll(objects[..|objects| - 1], plainOnly), objects[|objects| - 1], plainOnly)
  }

  /** merge({}, c) copies `c`: Combine's first argument is that merge. */
  lemma {:induction false} MergeIntoEmpty(c: Value, plainOnly: bool)
    ensures MergeIn(map[], c, plainOnly) == CopyEntries(c, plainOnly)
    decreases c
  {
    match c
    case Obj(fields) =>
      forall k | k in fields ensures Combine(Undefined, fields[k], plainOnly) == Copy(fields[k], plainOnly) {
        MergeIntoEmpty(fields[k], plainOnly);
        CombineFresh(fields[k], plainOnly);
      }
    case Arr(items) =>
      forall i | 0 <= i < |items| ensures Combine(Undefined, items[i], plainOnly) == Copy(items[i], plainOnly) {
        MergeIntoEmpty(items[i], plainOnly);
        CombineFresh(items[i], plainOnly);
      }
      MergeIntoEmptyArray(items, plainOnly);
    case _ =>
  }

  /** A key new to the result is merged over {}. */
  lemma CombineFresh(v: Value, plainOnly: bool)
    requires MergeIn(map[], v, plainOnly) == CopyEntries(v, plainOnly)
    ensures Combine(Undefined, v, plainOnly) == Copy(v, plainOnly)
  {
    assert Base(Undefined, plainOnly) == EmptyObject;
    assert CopyEntries(EmptyObject, plainOnly) == map[];
  }

  lemma MergeIntoEmptyArray(items: seq<Value>, plainOnly: bool)
    requires forall i :: 0 <= i < |items| ==> Combine(Undefined, items[i], plainOnly) == Copy(items[i], plainOnly)
    ensures MergeIn(map[], Arr(items), plainOnly) == CopyEntries(Arr(items), plainOnly)
  {
    var index := IndexEntries(items, (x: Value) => x);
    forall k | k in index
      ensures Combine(Lookup(map[], k), items[CanonicalIndex(k).value], plainOnly)
        == Copy(items[CanonicalIndex(k).value], plainOnly)
    {
    }
  }

  /** A merge step keeps the keys already there and adds the own keys of
      the new object. */
  lemma MergeInKeys(base: map<string, Value>, v: Value, plainOnly: bool)
    ensures MergeIn(base, v, plainOnly).Keys == base.Keys + OwnEntries(v).Keys
  {
  }

  /** An own key of the new object gets Combine of its old and new value,
      and every other key keeps its value. */
  lemma MergeInEntries(base: map<string, Value>, v: Value, plainOnly: bool)
    requires !v.Str?
    ensures forall k :: k in OwnEntries(v) ==>
      MergeIn(base, v, plainOnly)[k] == Combine(Lookup(base, k), OwnEntries(v)[k], plainOnly)
    ensures forall k :: k in base && k !in OwnEntries(v) ==> MergeIn(base, v, plainOnly)[k] == base[k]
  {
    MergeInKeys(base, v, plainOnly);
    if v.Arr? {
      MergeInArray(base, v.items, plainOnly);
    }
  }

  lemma MergeInArray(base: map<string, Value>, items: seq<Value>, plainOnly: bool)
    ensures forall k :: k in OwnEntries(Arr(items)) ==>
      MergeIn(base, Arr(items), plainOnly)[k] == Combine(Lookup(base, k), OwnEntries(Arr(items))[k], plainOnly)
  {
    MergeInKeys(base, Arr(items), plainOnly);
    forall k | k in OwnEntries(Arr(items)) ensures OwnEntries(Arr(items))[k] == items[CanonicalIndex(k).value] {
    }
  }

  /** The characters of a string are copied as they are. */
  lemma MergeInString(base: map<string, Value>, s: string, plainOnly: bool)
    ensures MergeIn(base, Str(s), plainOnly) == base + OwnEntries(Str(s))
  {
  }

  /** A character of a string is a value merge does not descend into. */
  lemma StringEntriesKept(base: map<string, Value>, s: string, plainOnly: bool)
    ensures forall k :: k in OwnEntries(Str(s)) ==>
      OwnEntries(Str(s))[k] == Combine(Lookup(base, k), OwnEntries(Str(s))[k], plainOnly)
  {
    var entries := OwnEntries(Str(s));
    forall k | k in entries
      ensures entries[k] == Combine(Lookup(base, k), entries[k], plainOnly)
    {
      var i := CanonicalIndex(k).value;
      assert entries[k] == Str([s[i]]);
      CombineFlat(Lookup(base, k), entries[k], plainOnly);
    }
  }

  /** A value merge does not descend into replaces the old one. */
  lemma CombineFlat(prev: Value, value: Value, plainOnly: bool)
    requires !Descends(value, plainOnly)
    ensures Combine(prev, value, plainOnly) == value
  {
  }

  /** The own keys of the objects, together. */
  function KeysOf(objects: seq<Value>): set<string> {
    if objects == [] then {} else KeysOf(objects[..|objects| - 1]) + OwnEntries(objects[|objects| - 1]).Keys
  }

  /** The merged object has exactly the own keys of the objects. */
  lemma {:induction false} MergeAllKeys(objects: seq<Value>, plainOnly: bool)
    ensures MergeAll(objects, plainOnly).Keys == KeysOf(objects)
  {
    if objects != [] {
      var front, last := objects[..|objects| - 1], objects[|objects| - 1];
      MergeAllKeys(front, plainOnly);
      MergeInKeys(MergeAll(front, plainOnly), last, plainOnly);
    }
  }

  /** A later object overrides earlier ones key by key: a value merge does
      not descend into replaces the old one wholesale, and one it descends
      into is merged over the old value. */
  lemma MergeOverride(objects: seq<Value>, last: Value, k: string, plainOnly: bool)
    requires k in OwnEntries(last)
    ensures var value := OwnEntries(last)[k];
      MergeAll(objects + [last], plainOnly)[k]
      == if Descends(value, plainOnly)
         then Obj(MergeIn(CopyEntries(Base(Lookup(MergeAll(objects, plainOnly), k), plainOnly), plainOnly), value, plainOnly))
         else value
  {
    assert (objects + [last])[..|objects|] == objects;
    if last.Str? {
      MergeInString(MergeAll(objects, plainOnly), last.s, plainOnly);
      StringEntriesKept(MergeAll(objects, plainOnly), last.s, plainOnly);
    } else {
      MergeInEntries(MergeAll(objects, plainOnly), last, plainOnly);
    }
  }

  /** A key the later object does not have keeps its value. */
  lemma MergeKeeps(objects: seq<Value>, last: Value, k: string, plainOnly: bool)
    requires k in MergeAll(objects, plainOnly) && k !in OwnEntries(last)
    ensures MergeAll(objects + [last], plainOnly)[k] == MergeAll(objects, plainOnly)[k]
  {
    assert (objects + [last])[..|objects|] == objects;
    if last.Str? {
      MergeInString(MergeAll(objects, plainOnly), last.s, plainOnly);
      StringEntriesKept(MergeAll(objects, plainOnly), last.s, plainOnly);
    } else {
      MergeInEntries(MergeAll(objects, plainOnly), last, plainOnly);
    }
  }

  /** As written, merge descends into a Date, whose own keys are none, so
      merge({d: date}) gives {d: {}}: the date is lost. */
  lemma MergeLosesDate(time: int)
    ensures MergeAll([Obj(map["d" := Date(time)])], false) == map["d" := EmptyObject]
  {
    var o := Obj(map["d" := Date(time)]);
    assert [o][..0] == [];
    assert Combine(Undefined, Date(time), false) == Obj(MergeIn(map[], Date(time), false));
  }

  /** The corrected merge replaces every value that is not a plain object
      wholesale, so dates and regular expressions survive. */
  lemma MergeKeepsNonPlain(objects: seq<Value>, last: Value, k: string)
    requires k in OwnEntries(last) && !OwnEntries(last)[k].Obj?
    ensures MergeAll(objects + [last], true)[k] == OwnEntries(last)[k]
  {
    MergeOverride(objects, last, k, true);
  }

  /** The keys of one object done so far in the inner forEach. */
  function Written(base: map<string, Value>, entries: map<string, Value>, done: set<string>, plainOnly: bool)
    : map<string, Value>
    requires done <= entries.Keys
  {
    map k | k in base.Keys + done :: if k in done then Combine(Lookup(base, k), entries[k], plainOnly) else base[k]
  }

  /** merge(...objects): for each object and each of its own keys, a value
      merge descends into is merged recursively over `result[key] || {}`,
      and any other value is assigned. `plainOnly` false is the merge as
      written, true the corrected one. */
  method Merge(objects: seq<Value>, plainOnly: bool) returns (result: map<string, Value>)
    requires forall i :: 0 <= i < |objects| ==> !objects[i].Null? && !objects[i].Undefined?
    ensures result == MergeAll(objects, plainOnly)
  {
    result := map[];
    for i := 0 to |objects|
      invariant result == MergeAll(objects[..i], plainOnly)
    {
      ghost var before := result;
      result := MergeObject(result, OwnEntries(objects[i]), plainOnly);
      MergeStep(before, objects[i], plainOnly);
      assert objects[..i + 1][..i] == objects[..i];
    }
    assert objects[..|objects|] == objects;
  }

  /** One object of merge's outer forEach: each own key written in turn. */
  method MergeObject(start: map<string, Value>, entries: map<string, Value>, plainOnly: bool) returns (result: map<string, Value>)
    ensures result == Written(start, entries, entries.Keys, plainOnly)
  {
    result := start;
    var keys := entries.Keys;
    while keys != {}
      invariant keys <= entries.Keys
      invariant result == Written(start, entries, entries.Keys - keys, plainOnly)
      decreases keys
    {
      var key :| key in keys;
      var value := entries[key];
      WrittenStep(start, entries, entries.Keys - keys, key, plainOnly);
      assert entries.Keys - (keys - {key}) == (entries.Keys - keys) + {key};
      if Descends(value, plainOnly) {
        var inner := CopyEntries(Base(Lookup(result, key), plainOnly), plainOnly);
        assert Obj(MergeIn(inner, value, plainOnly)) == Combine(Lookup(result, key), value, plainOnly);
        result := result[key := Obj(MergeIn(inner, value, plainOnly))];
      } else {
        result := result[key := value];
      }
      keys := keys - {key};
    }
    assert entries.Keys - keys == entries.Keys;
  }

  lemma WrittenStep(start: map<string, Value>, entries: map<string, Value>, done: set<string>, key: string,
                    plainOnly: bool)
    requires done <= entries.Keys && key in entries && key !in done
    ensures var before := Written(start, entries, done, plainOnly);
      Written(start, entries, done + {key}, plainOnly)
      == before[key := Combine(Lookup(before, key), entries[key], plainOnly)]
  {
    var before := Written(start, entries, done, plainOnly);
    assert Lookup(before, key) == Lookup(start, key);
  }

  lemma MergeStep(base: map<string, Value>, obj: Value, plainOnly: bool)
    ensures Written(base, OwnEntries(obj), OwnEntries(obj).Keys, plainOnly) == MergeIn(base, obj, plainOnly)
  {
    if obj.Str? {
      MergeStepString(base, obj.s, plainOnly);
    } else {
      MergeStepEntries(base, obj, plainOnly);
    }
  }

  lemma MergeStepString(base: map<string, Value>, s: string, plainOnly: bool)
    ensures Written(base, OwnEntries(Str(s)), OwnEntries(Str(s)).Keys, plainOnly) == MergeIn(base, Str(s), plainOnly)
  {
    MergeInString(base, s, plainOnly);
    StringEntriesKept(base, s, plainOnly);
  }

  lemma MergeStepEntries(base: map<string, Value>, obj: Value, plainOnly: bool)
    requires !obj.Str?
    ensures Written(base, OwnEntries(obj), OwnEntries(obj).Keys, plainOnly) == MergeIn(base, obj, plainOnly)
  {
    var entries := OwnEntries(obj);
    var w, m := Written(base, entries, entries.Keys, plainOnly), MergeIn(base, obj, plainOnly);
    MergeInKeys(base, obj, plainOnly);
    MergeInEntries(base, obj, plainOnly);
    assert w.Keys == m.Keys;
    forall k | k in w
      ensures w[k] == m[k]
    {
    }
  }

  // ---------------------------------------------------------------------
  // Paths

  /** A path is a dotted string or an array of keys. */
  datatype Path = Dotted(text: string) | Keys(keys: seq<string>)

  /** path.split('.'). */
  function SplitDots(s: string): (r: seq<string>)
    ensures |r| >= 1
    ensures forall i :: 0 <= i < |r| ==> '.' !in r[i]
    decreases |s|
  {
    var j := FirstIndex(s, IsPoint);
    if j == |s| then [s] else [s[..j]] + SplitDots(s[j + 1..])
  }

  /** parts.join('.'). */
  function JoinDots(parts: seq<string>): string
    requires |parts| >= 1
  {
    if |parts| == 1 then parts[0] else parts[0] + "." + JoinDots(parts[1..])
  }

  /** Splitting on '.' and joining back gives the path text. */
  lemma {:induction false} SplitJoin(s: string)
    ensures JoinDots(SplitDots(s)) == s
    decreases |s|
  {
    var j := FirstIndex(s, IsPoint);
    if j < |s| {
      SplitJoin(s[j + 1..]);
      assert s == s[..j] + "." + s[j + 1..];
    }
  }

  /** Splitting at the first dot, at index `k`. */
  lemma SplitAtFirstDot(s: string, k: nat)
    requires k < |s| && s[k] == '.' && '.' !in s[..k]
    ensures SplitDots(s) == [s[..k]] + SplitDots(s[k + 1..])
  {
    forall j | 0 <= j < k ensures !IsPoint(s[j]) {
      assert s[..k][j] == s[j];
    }
    DecimalValues.FirstIndexIs(s, IsPoint, k);
  }

  /** Keys without dots are recovered from their join. */
  lemma {:induction false} JoinSplit(parts: seq<string>)
    requires |parts| >= 1 && forall i :: 0 <= i < |parts| ==> '.' !in parts[i]
    ensures SplitDots(JoinDots(parts)) == parts
  {
    var s := JoinDots(parts);
    if |parts| == 1 {
      DecimalValues.FirstIndexIs(s, IsPoint, |s|);
    } else {
      var rest := JoinDots(parts[1..]);
      var k := |parts[0]|;
      assert s == parts[0] + "." + rest;
      assert s[..k] == parts[0] && s[k] == '.' && s[k + 1..] == rest;
      assert '.' !in parts[0];
      SplitAtFirstDot(s, k);
      JoinSplit(parts[1..]);
    }
  }

  function PathKeys(path: Path): (r: seq<string>)
    ensures path.Dotted? ==> |r| >= 1
  {
    match path
    case Dotted(text) => SplitDots(text)
    case Keys(keys) => keys
  }

  // ---------------------------------------------------------------------
  // get, has

  /** The value reached by reading the keys in turn, or None when a step
      starts from null or undefined. */
  function Walk(v: Value, keys: seq<string>): Option<Value>
    decreases |keys|
  {
    if keys == [] then Some(v)
    else if v.Null? || v.Undefined? then None
    else Walk(Property(v, keys[0]), keys[1..])
  }

  /** get's result: the value at the path, or the default where the walk
      stops at null or undefined or ends on undefined. */
  function PathValue(v: Value, keys: seq<string>, default: Value): Value {
    match Walk(v, keys)
    case None => default
    case Some(r) => if r.Undefined? then default else r
  }

  /** get(obj, path, defaultValue). */
  method Get(obj: Value, path: Path, default: Value) returns (r: Value)
    ensures r == PathValue(obj, PathKeys(path), default)
  {
    var keys := PathKeys(path);
    var current := obj;
    var i := 0;
    while i < |keys|
      invariant i <= |keys|
      invariant Walk(obj, keys) == Walk(current, keys[i..])
    {
      if current.Null? || current.Undefined? {
        return default;
      }
      assert keys[i..][1..] == keys[i + 1..];
      current := Property(current, keys[i]);
      i := i + 1;
    }
    r := if current.Undefined? then default else current;
  }

  /** `key in current` for a value whose typeof is 'object': an own key of
      an object, an index or the length of an array. */
  predicate HasKey(v: Value, key: string) {
    match v
    case Obj(fields) => key in fields
    case Arr(items) =>
      key == "length" || (CanonicalIndex(key).Some? && CanonicalIndex(key).value < |items|)
    case _ => false
  }

  /** Truthy values whose typeof is 'object'. */
  predicate IsObjectValue(v: Value) {
    v.Obj? || v.Arr? || v.Date? || v.RegExp?
  }

  /** has's result: every step starts from an object that has the key. */
  predicate HasPath(v: Value, keys: seq<string>)
    decreases |keys|
  {
    keys == [] || (IsObjectValue(v) && HasKey(v, keys[0]) && HasPath(Property(v, keys[0]), keys[1..]))
  }

  /** has(obj, path). */
  method Has(obj: Value, path: Path) returns (r: bool)
    ensures r == HasPath(obj, PathKeys(path))
  {
    var keys := PathKeys(path);
    var current := obj;
    var i := 0;
    while i < |keys|
      invariant i <= |keys|
      invariant HasPath(obj, keys) == HasPath(current, keys[i..])
    {
      if !Truthy(current) || TypeOf(current) != "object" || !HasKey(current, keys[i]) {
        return false;
      }
      assert keys[i..][1..] == keys[i + 1..];
      current := Property(current, keys[i]);
      i := i + 1;
    }
    r := true;
  }

  /** A path that has every key can be walked to its end. */
  lemma {:induction false} HasWalks(v: Value, keys: seq<string>)
    requires HasPath(v, keys)
    ensures Walk(v, keys).Some?
    decreases |keys|
  {
    if keys != [] {
      HasWalks(Property(v, keys[0]), keys[1..]);
    }
  }

  // ---------------------------------------------------------------------
  // set, remove

  /** `current[key] = value` on an object or an array. Writes an array
      cannot hold as a sequence (past its end, to its length or to a named
      key) and writes into dates and regular expressions give None. */
  function SetKey(c: Value, key: string, value: Value): (r: Option<Value>)
    ensures r.Some? ==> r.value.Obj? || r.value.Arr?
  {
    match c
    case Obj(fields) => Some(Obj(fields[key := value]))
    case Arr(items) =>
      var i := CanonicalIndex(key);
      if i.Some? && i.value < |items| then Some(Arr(items[i.value := value]))
      else if i.Some? && i.value == |items| then Some(Arr(items + [value]))
      else None
    case _ => None
  }

  /** The value `c` becomes when set writes `value` at `keys`: every step
      whose value is not an object is replaced by {}, then the last key is
      written. */
  function SetPath(c: Value, keys: seq<string>, value: Value): (r: Option<Value>)
    requires |keys| >= 1
    ensures r.Some? ==> r.value.Obj? || r.value.Arr?
    decreases |keys|
  {
    if |keys| == 1 then SetKey(c, keys[0], value)
    else
      var child := Property(c, keys[0]);
      var next := if IsObjectValue(child) then child else EmptyObject;
      match SetPath(next, keys[1..], value)
      case None => None
      case Some(updated) => SetKey(c, keys[0], updated)
  }

  lemma PropertyAfterSetKey(c: Value, key: string, value: Value)
    requires SetKey(c, key, value).Some?
    ensures Property(SetKey(c, key, value).value, key) == value
  {
    if c.Arr? {
      assert key != "length";
    }
  }

  /** Get after set: the value written is the value at the path. */
  lemma {:induction false} WalkAfterSet(c: Value, keys: seq<string>, value: Value)
    requires |keys| >= 1 && SetPath(c, keys, value).Some?
    ensures Walk(SetPath(c, keys, value).value, keys) == Some(value)
    decreases |keys|
  {
    var r := SetPath(c, keys, value).value;
    if |keys| == 1 {
      PropertyAfterSetKey(c, keys[0], value);
      assert keys[1..] == [];
    } else {
      var child := Property(c, keys[0]);
      var next := if IsObjectValue(child) then child else EmptyObject;
      var updated := SetPath(next, keys[1..], value).value;
      WalkAfterSet(next, keys[1..], value);
      PropertyAfterSetKey(c, keys[0], updated);
    }
  }

  /** A set path that is read back gives the value, unless that value is
      undefined, which get replaces by the default. */
  lemma GetAfterSet(c: Value, keys: seq<string>, value: Value, default: Value)
    requires |keys| >= 1 && SetPath(c, keys, value).Some?
    ensures PathValue(SetPath(c, keys, value).value, keys, default) == if value.Undefined? then default else value
  {
    WalkAfterSet(c, keys, value);
  }

  /** Whether writing `key` into `c` appends to an array, which also
      changes its length. */
  predicate Appends(c: Value, key: string) {
    c.Arr? && CanonicalIndex(key) == Some(|c.items|)
  }

  /** A write that does not append changes the read of no other key. */
  lemma SetKeyFrame(c: Value, key: string, value: Value, k: string)
    requires SetKey(c, key, value).Some? && !Appends(c, key) && k != key
    ensures Property(SetKey(c, key, value).value, k) == Property(c, k)
  {
  }

  /** Whether set writes along `keys` in place: every step before the last
      reaches a value whose typeof is 'object', so no {} replaces it, and no
      write appends to an array. */
  predicate WritesInPlace(c: Value, keys: seq<string>)
    decreases |keys|
  {
    keys == [] ||
      (!Appends(c, keys[0])
        && (|keys| > 1 ==> IsObjectValue(Property(c, keys[0])))
        && WritesInPlace(Property(c, keys[0]), keys[1..]))
  }

  /** A path that leaves `keys` below the first step shares that step, and
      its tail leaves the tail of `keys` one step earlier. */
  lemma LeavesBelow(q: seq<string>, keys: seq<string>, j: nat)
    requires 0 < j < |q| && j < |keys| && q[..j] == keys[..j] && q[j] != keys[j]
    ensures q[0] == keys[0]
    ensures q[1..][..j - 1] == keys[1..][..j - 1] && q[1..][j - 1] != keys[1..][j - 1]
  {
    assert q[..j][0] == keys[..j][0];
    assert q[1..][..j - 1] == q[..j][1..];
    assert keys[1..][..j - 1] == keys[..j][1..];
  }

  /** A walk whose first key is read from the same value before and after
      a write that leaves that key alone. */
  lemma WalkAfterOtherKey(c: Value, key: string, value: Value, q: seq<string>)
    requires SetKey(c, key, value).Some? && !Appends(c, key) && |q| >= 1 && q[0] != key
    ensures Walk(SetKey(c, key, value).value, q) == Walk(c, q)
  {
    SetKeyFrame(c, key, value, q[0]);
  }

  /** Set leaves every path that leaves `keys` as it was, at any depth,
      when it writes in place. (A step replaced by {} loses what was
      readable there, such as a string's characters, and an append changes
      an array's length, as the source does.) */
  lemma {:induction false} SetLeavesOtherPaths(c: Value, keys: seq<string>, value: Value, q: seq<string>, j: nat)
    requires |keys| >= 1 && SetPath(c, keys, value).Some? && WritesInPlace(c, keys)
    requires j < |q| && j < |keys| && q[..j] == keys[..j] && q[j] != keys[j]
    ensures Walk(SetPath(c, keys, value).value, q) == Walk(c, q)
    decreases |keys|
  {
    if |keys| == 1 {
      WalkAfterOtherKey(c, keys[0], value, q);
    } else {
      var child := Property(c, keys[0]);
      var updated := SetPath(child, keys[1..], value).value;
      assert SetPath(c, keys, value) == SetKey(c, keys[0], updated);
      if j == 0 {
        WalkAfterOtherKey(c, keys[0], updated, q);
      } else {
        LeavesBelow(q, keys, j);
        SetLeavesOtherPaths(child, keys[1..], value, q[1..], j - 1);
        PropertyAfterSetKey(c, keys[0], updated);
      }
    }
  }

  /** Set changes only the entry of the first key of an object. */
  lemma SetFrame(fields: map<string, Value>, keys: seq<string>, value: Value)
    requires |keys| >= 1 && SetPath(Obj(fields), keys, value).Some?
    ensures var r := SetPath(Obj(fields), keys, value).value;
      r.Obj? && keys[0] in r.fields && r.fields == fields[keys[0] := r.fields[keys[0]]]
  {
  }

  /** `delete current[lastKey]` on an object, an array or a date or regular
      expression (which have no own keys to lose). Deleting an array's
      element or length gives None. */
  function DeleteKey(c: Value, key: string): Option<Value> {
    match c
    case Obj(fields) => Some(Obj(fields - {key}))
    case Arr(items) =>
      var i := CanonicalIndex(key);
      if key == "length" || (i.Some? && i.value < |items|) then None else Some(c)
    case _ => Some(c)
  }

  /** What remove does: Blocked when a step before the last key is not an
      object (remove returns false), Deleted with the new value otherwise. */
  datatype Removal = Blocked | Deleted(updated: Value)

  function RemovePath(c: Value, keys: seq<string>): Option<Removal>
    requires |keys| >= 1
    decreases |keys|
  {
    if |keys| == 1 then
      match DeleteKey(c, keys[0])
      case None => None
      case Some(u) => Some(Deleted(u))
    else
      var child := Property(c, keys[0]);
      if !IsObjectValue(child) then Some(Blocked)
      else
        match RemovePath(child, keys[1..])
        case None => None
        case Some(Blocked) => Some(Blocked)
        case Some(Deleted(u)) =>
          match SetKey(c, keys[0], u)
          case None => None
          case Some(w) => Some(Deleted(w))
  }

  /** After a remove, the path no longer has its last key. */
  lemma {:induction false} RemoveThenHasNot(c: Value, keys: seq<string>)
    requires |keys| >= 1 && RemovePath(c, keys).Some? && RemovePath(c, keys).value.Deleted?
    ensures !HasPath(RemovePath(c, keys).value.updated, keys)
    decreases |keys|
  {
    if |keys| > 1 {
      var child := Property(c, keys[0]);
      var u := RemovePath(child, keys[1..]).value.updated;
      RemoveThenHasNot(child, keys[1..]);
      PropertyAfterSetKey(c, keys[0], u);
    }
  }

  /** Remove changes only the entry of the first key of an object. */
  lemma RemoveFrame(fields: map<string, Value>, keys: seq<string>)
    requires |keys| >= 1 && RemovePath(Obj(fields), keys).Some? && RemovePath(Obj(fields), keys).value.Deleted?
    ensures var r := RemovePath(Obj(fields), keys).value.updated;
      r.Obj? && forall k :: k != keys[0] ==> (k in r.fields <==> k in fields) && (k in fields ==> r.fields[k] == fields[k])
  {
  }

  /** Remove leaves every path that leaves `keys` as it was, at any depth:
      only the last key is deleted. */
  lemma {:induction false} RemoveLeavesOtherPaths(c: Value, keys: seq<string>, q: seq<string>, j: nat)
    requires |keys| >= 1 && RemovePath(c, keys).Some? && RemovePath(c, keys).value.Deleted?
    requires j < |q| && j < |keys| && q[..j] == keys[..j] && q[j] != keys[j]
    ensures Walk(RemovePath(c, keys).value.updated, q) == Walk(c, q)
    decreases |keys|
  {
    if |keys| > 1 {
      var child := Property(c, keys[0]);
      var u := RemovePath(child, keys[1..]).value.updated;
      if j == 0 {
        WalkAfterOtherKey(c, keys[0], u, q);
      } else {
        LeavesBelow(q, keys, j);
        RemoveLeavesOtherPaths(child, keys[1..], q[1..], j - 1);
        PropertyAfterSetKey(c, keys[0], u);
      }
    }
  }

  /** A plain object that set and remove change in place. */
  class ObjectRef {
    var fields: map<string, Value>

    constructor(fields0: map<string, Value>)
      ensures fields == fields0
    {
      fields := fields0;
    }

    /** set(obj, path, value). */
    method Set(path: Path, value: Value)
      requires |PathKeys(path)| >= 1 && SetPath(Obj(fields), PathKeys(path), value).Some?
      modifies this
      ensures Obj(fields) == SetPath(Obj(old(fields)), PathKeys(path), value).value
    {
      var r := SetPath(Obj(fields), PathKeys(path), value).value;
      SetFrame(fields, PathKeys(path), value);
      fields := r.fields;
    }

    /** remove(obj, path). */
    method Remove(path: Path) returns (removed: bool)
      requires |PathKeys(path)| >= 1 && RemovePath(Obj(fields), PathKeys(path)).Some?
      modifies this
      ensures removed == RemovePath(Obj(old(fields)), PathKeys(path)).value.Deleted?
      ensures removed ==> Obj(fields) == RemovePath(Obj(old(fields)), PathKeys(path)).value.updated
      ensures !removed ==> fields == old(fields)
    {
      var outcome := RemovePath(Obj(fields), PathKeys(path)).value;
      if outcome.Blocked? {
        return false;
      }
      RemoveFrame(fields, PathKeys(path));
      fields := outcome.updated.fields;
      removed := true;
    }
  }

  // ---------------------------------------------------------------------
  // pick, omit

  function Picked(obj: map<string, Value>, keys: seq<string>): map<string, Value> {
    map k | k in obj && k in keys :: obj[k]
  }

  function Omitted(obj: map<string, Value>, keys: seq<string>): map<string, Value> {
    map k | k in obj && k !in keys :: obj[k]
  }

  /** pick(obj, keys): each listed key present in `obj` is copied. */
  method Pick(obj: map<string, Value>, keys: seq<string>) returns (r: map<string, Value>)
    ensures r == Picked(obj, keys)
  {
    r := map[];
    for i := 0 to |keys|
      invariant r == Picked(obj, keys[..i])
    {
      assert keys[..i + 1] == keys[..i] + [keys[i]];
      if keys[i] in obj {
        r := r[keys[i] := obj[keys[i]]];
      }
    }
    assert keys[..|keys|] == keys;
  }

  /** omit(obj, keys): a shallow copy of `obj` with each listed key deleted;
      `obj` itself is a value here and is not changed. */
  method Omit(obj: map<string, Value>, keys: seq<string>) returns (r: map<string, Value>)
    ensures r == Omitted(obj, keys)
  {
    r := obj;
    for i := 0 to |keys|
      invariant r == Omitted(obj, keys[..i])
    {
      assert keys[..i + 1] == keys[..i] + [keys[i]];
      r := r - {keys[i]};
    }
    assert keys[..|keys|] == keys;
  }

  /** pick and omit split an object: they share no key, and together they
      hold every entry. */
  lemma PickOmitSplit(obj: map<string, Value>, keys: seq<string>)
    ensures Picked(obj, keys).Keys !! Omitted(obj, keys).Keys
    ensures Picked(obj, keys) + Omitted(obj, keys) == obj
    ensures forall k :: k in Picked(obj, keys) <==> k in obj && k in keys
  {
  }
}
