/** Type inspection and deep equality over JavaScript values. */
module BaseUtils {

  import opened Wrappers
  import opened Ascii
  import opened Decimals
  import opened JsValues

  /** The classes Object.prototype.toString tells apart. */
  datatype Class =
    | UndefinedClass | NullClass | BooleanClass | NumberClass | StringClass
    | ArrayClass | ObjectClass | DateClass | RegExpClass | FunctionClass

  function ClassOf(v: Value): Class {
    match v
    case Undefined => UndefinedClass
    case Null => NullClass
    case Bool(_) => BooleanClass
    case Num(_) => NumberClass
    case NaN => NumberClass
    case Str(_) => StringClass
    case Arr(_) => ArrayClass
    case Obj(_) => ObjectClass
    case Date(_) => DateClass
    case RegExp(_, _) => RegExpClass
    case Func(_) => FunctionClass
  }

  /** The class name between "[object " and "]", lower-cased. */
  function TypeName(v: Value): string {
    match v
    case Undefined => "undefined"
    case Null => "null"
    case Bool(_) => "boolean"
    case Num(_) => "number"
    case NaN => "number"
    case Str(_) => "string"
    case Arr(_) => "array"
    case Obj(_) => "object"
    case Date(_) => "date"
    case RegExp(_, _) => "regexp"
    case Func(_) => "function"
  }

  /** getType: the lower-cased class name of a value; it is all lower case. */
  function GetType(v: Value): (r: string)
    ensures Lower(r) == r
  {
    TypeNameLower(v);
    TypeName(v)
  }

  lemma TypeNameLower(v: Value)
    ensures Lower(TypeName(v)) == TypeName(v)
  {
    var t := TypeName(v);
    forall i | 0 <= i < |t| ensures !IsUpper(t[i]) {
    }
    NoUpperLower(t);
  }

  lemma NoUpperLower(s: string)
    requires forall i :: 0 <= i < |s| ==> !IsUpper(s[i])
    ensures Lower(s) == s
  {
  }

  /** Two values have the same type name exactly when they have the same
      class, numbers and NaN both being numbers. */
  lemma GetTypeTags(a: Value, b: Value)
    ensures GetType(a) == GetType(b) <==> ClassOf(a) == ClassOf(b)
  {
    if GetType(a) == GetType(b) {
      TypeNameInjective(a, b);
    }
    if ClassOf(a) == ClassOf(b) {
      SameClassSameName(a, b);
    }
  }

  /** The length and the first letter of a type name decide its class. */
  lemma TypeNameInjective(a: Value, b: Value)
    requires |TypeName(a)| == |TypeName(b)| && TypeName(a)[0] == TypeName(b)[0]
    ensures ClassOf(a) == ClassOf(b)
  {
  }

  lemma SameClassSameName(a: Value, b: Value)
    requires ClassOf(a) == ClassOf(b)
    ensures TypeName(a) == TypeName(b)
  {
  }

  /** The type names the guards below test for. */
  lemma GetTypeNames(a: Value)
    ensures GetType(a) == "array" <==> a.Arr?
    ensures GetType(a) == "object" <==> a.Obj?
    ensures GetType(a) == "number" <==> a.Num? || a.NaN?
  {
  }

  /** isType: whether `v` is of the kind the name `t` gives, in any case:
      "undefined", "null", "boolean", "number" (NaN included), "string",
      "array", "object" (plain objects only), "date", "regexp" or
      "function"; no other name matches anything. */
  function IsType(v: Value, t: string): (r: bool)
    ensures var n := Lower(t);
      r <==>
        || (n == "undefined" && v.Undefined?)
        || (n == "null" && v.Null?)
        || (n == "boolean" && v.Bool?)
        || (n == "number" && (v.Num? || v.NaN?))
        || (n == "string" && v.Str?)
        || (n == "array" && v.Arr?)
        || (n == "object" && v.Obj?)
        || (n == "date" && v.Date?)
        || (n == "regexp" && v.RegExp?)
        || (n == "function" && v.Func?)
  {
    GetType(v) == Lower(t)
  }

  /** The requested type name is case-insensitive, and every value is of
      its own type. */
  lemma IsTypeCaseInsensitive(v: Value, t: string)
    ensures IsType(v, t) == IsType(v, Lower(t))
    ensures IsType(v, GetType(v))
  {
    LowerIdempotent(t);
    LowerIdempotent(GetType(v));
  }

  lemma LowerIdempotent(s: string)
    ensures Lower(Lower(s)) == Lower(s)
  {
    forall i | 0 <= i < |s| ensures Lower(Lower(s))[i] == Lower(s)[i] {
      LowerOfUpper(s[i]);
    }
  }

  /** Array.isArray: true exactly for the values getType names "array". */
  function IsArray(v: Value): (r: bool)
    ensures r <==> GetType(v) == "array"
  {
    v.Arr?
  }

  function IsObject(v: Value): (r: bool)
    ensures r <==> v.Obj?
  {
    GetType(v) == "object"
  }

  function IsFunction(v: Value): (r: bool)
    ensures r <==> v.Func?
  {
    TypeOf(v) == "function"
  }

  function IsString(v: Value): (r: bool)
    ensures r <==> v.Str?
  {
    TypeOf(v) == "string"
  }

  /** Numbers other than NaN. */
  function IsNumber(v: Value): (r: bool)
    ensures r <==> v.Num?
  {
    TypeOf(v) == "number" && !v.NaN?
  }

  function IsBoolean(v: Value): (r: bool)
    ensures r <==> v.Bool?
  {
    TypeOf(v) == "boolean"
  }

  function IsNull(v: Value): (r: bool)
    ensures r <==> v.Null?
  {
    StrictEquals(v, Null)
  }

  function IsUndefined(v: Value): (r: bool)
    ensures r <==> v.Undefined?
  {
    StrictEquals(v, Undefined)
  }

  function IsDate(v: Value): (r: bool)
    ensures r <==> v.Date?
  {
    GetType(v) == "date"
  }

  function IsRegExp(v: Value): (r: bool)
    ensures r <==> v.RegExp?
  {
    GetType(v) == "regexp"
  }

  /** The guards exclude one another: isObject holds of no array and
      not of null, isNumber of no string. */
  lemma GuardsExclusive(v: Value)
    ensures IsObject(v) ==> !IsArray(v) && !IsNull(v)
    ensures IsNumber(v) ==> !IsString(v)
  {
  }

  /** null, undefined, '', [] and objects without own keys are empty;
      nothing else is. */
  function IsEmpty(v: Value): (r: bool)
    ensures r <==> v == Null || v == Undefined || v == Str("") || v == Arr([]) || v == EmptyObject
  {
    if IsNull(v) || IsUndefined(v) then true
    else if IsString(v) then |v.s| == 0
    else if IsArray(v) then |v.items| == 0
    else if IsObject(v) then |v.fields| == 0
    else false
  }

  // ---------------------------------------------------------------------
  // isEquals

  /** isEquals as written: identical values are equal; null and undefined
      are equal only to themselves; values of different type names never
      are; arrays compare element-wise, objects by key count and by each
      key of `a` against the same property of `b`, dates by timestamp and
      regular expressions by their text. */
  function IsEquals(a: Value, b: Value): bool
    decreases a
  {
    if StrictEquals(a, b) then true
    else if a.Null? || b.Null? || a.Undefined? || b.Undefined? then StrictEquals(a, b)
    else if GetType(a) != GetType(b) then false
    else if GetType(a) == "array" then
      |a.items| == |b.items| && forall i :: 0 <= i < |a.items| ==> IsEquals(a.items[i], b.items[i])
    else if GetType(a) == "object" then
      |a.fields| == |b.fields| && forall k :: k in a.fields ==> IsEquals(a.fields[k], Property(b, k))
    else if GetType(a) == "date" then a.time == b.time
    else if GetType(a) == "regexp" then RegExpText(a.source, a.flags) == RegExpText(b.source, b.flags)
    else false
  }

  /** A value without NaN and without functions is equal to itself. */
  predicate Comparable(v: Value)
    decreases v
  {
    match v
    case NaN => false
    case Func(_) => false
    case Arr(items) => forall i :: 0 <= i < |items| ==> Comparable(items[i])
    case Obj(fields) => forall k :: k in fields ==> Comparable(fields[k])
    case _ => true
  }

  lemma {:induction false} IsEqualsReflexive(v: Value)
    requires Comparable(v)
    ensures IsEquals(v, v)
    decreases v
  {
    match v
    case Num(x) =>
      assert Cmp(x, x) == 0;
    case Arr(items) =>
      forall i | 0 <= i < |items| ensures IsEquals(items[i], items[i]) {
        IsEqualsReflexive(items[i]);
      }
    case Obj(fields) =>
      forall k | k in fields ensures IsEquals(fields[k], Property(v, k)) {
        IsEqualsReflexive(fields[k]);
      }
    case _ =>
  }

  /** Equal values have the same type name. */
  lemma IsEqualsSameType(a: Value, b: Value)
    requires IsEquals(a, b)
    ensures GetType(a) == GetType(b)
  {
    if StrictEquals(a, b) {
      if a.Num? { assert b.Num?; }
    }
  }

  /** null and undefined are equal to themselves only. */
  lemma IsEqualsNullish(a: Value, b: Value)
    requires a.Null? || a.Undefined? || b.Null? || b.Undefined?
    ensures IsEquals(a, b) <==> a == b
  {
  }

  /** Arrays are equal when they have the same length and equal elements
      position by position. */
  lemma IsEqualsArrays(xs: seq<Value>, ys: seq<Value>)
    ensures IsEquals(Arr(xs), Arr(ys)) <==> |xs| == |ys| && forall i :: 0 <= i < |xs| ==> IsEquals(xs[i], ys[i])
  {
    assert GetType(Arr(xs)) == "array" == GetType(Arr(ys));
  }

  /** Objects are equal when they have as many own keys and each key of
      the first is equal to the same property of the second, undefined when
      the second lacks it. */
  lemma IsEqualsObjects(f: map<string, Value>, g: map<string, Value>)
    ensures IsEquals(Obj(f), Obj(g)) <==>
      |f| == |g| && forall k :: k in f ==> IsEquals(f[k], Property(Obj(g), k))
  {
    assert GetType(Obj(f)) == "object" == GetType(Obj(g));
  }

  /** Any other value is equal exactly to what it is identical to (===):
      a number to a number of the same value, a boolean or a string to the
      same one, null and undefined to themselves; NaN and functions to
      nothing. */
  lemma IsEqualsPrimitives(a: Value, b: Value)
    requires !a.Arr? && !a.Obj? && !a.Date? && !a.RegExp?
    ensures IsEquals(a, b) <==> StrictEquals(a, b)
  {
    if !StrictEquals(a, b) && !(a.Null? || b.Null? || a.Undefined? || b.Undefined?) {
      GetTypeNames(a);
      assert GetType(a) != "date" && GetType(a) != "regexp";
    }
  }

  /** Dates are equal when their timestamps are, regular expressions when
      their texts are. */
  lemma IsEqualsDates(s: int, t: int)
    ensures IsEquals(Date(s), Date(t)) <==> s == t
  {
    assert GetType(Date(s)) == "date" == GetType(Date(t));
  }

  lemma IsEqualsRegExps(r1: string, f1: string, r2: string, f2: string)
    ensures IsEquals(RegExp(r1, f1), RegExp(r2, f2)) <==> RegExpText(r1, f1) == RegExpText(r2, f2)
  {
    assert GetType(RegExp(r1, f1)) == "regexp" == GetType(RegExp(r2, f2));
  }

  /** [1, 2] and [1, 2, 3] differ. */
  lemma IsEqualsLengthExample()
    ensures !IsEquals(Arr([Num(One), Num(Dec(2, 0))]), Arr([Num(One), Num(Dec(2, 0)), Num(Dec(3, 0))]))
  {
  }

  /** An object key whose value is undefined in `a` matches a missing key
      of `b`, so with equal key counts {x: undefined} equals {y: 1}, while
      the converse comparison fails. */
  lemma IsEqualsAsymmetric()
    ensures var a, b := Obj(map["x" := Undefined]), Obj(map["y" := Num(One)]);
      IsEquals(a, b) && !IsEquals(b, a)
  {
    var a, b := Obj(map["x" := Undefined]), Obj(map["y" := Num(One)]);
    assert Property(b, "x") == Undefined;
    assert a.fields["x"] == Undefined;
    assert Property(a, "y") == Undefined;
    assert !IsEquals(b.fields["y"], Undefined);
  }

  /** isEquals with the key of `a` also required in `b`: objects are then
      compared on the same key set. */
  function IsEqualsFixed(a: Value, b: Value): bool
    decreases a
  {
    if StrictEquals(a, b) then true
    else if a.Null? || b.Null? || a.Undefined? || b.Undefined? then StrictEquals(a, b)
    else if GetType(a) != GetType(b) then false
    else if GetType(a) == "array" then
      |a.items| == |b.items| && forall i :: 0 <= i < |a.items| ==> IsEqualsFixed(a.items[i], b.items[i])
    else if GetType(a) == "object" then
      |a.fields| == |b.fields|
      && forall k :: k in a.fields ==> k in b.fields && IsEqualsFixed(a.fields[k], b.fields[k])
    else if GetType(a) == "date" then a.time == b.time
    else if GetType(a) == "regexp" then RegExpText(a.source, a.flags) == RegExpText(b.source, b.flags)
    else false
  }

  /** The corrected comparison is symmetric. */
  lemma {:induction false} IsEqualsFixedSymmetric(a: Value, b: Value)
    ensures IsEqualsFixed(a, b) == IsEqualsFixed(b, a)
    decreases a
  {
    StrictEqualsSymmetric(a, b);
    if StrictEquals(a, b) || a.Null? || b.Null? || a.Undefined? || b.Undefined? {
    } else if GetType(a) != GetType(b) {
    } else if a.Arr? {
      if IsEqualsFixed(a, b) {
        forall i | 0 <= i < |b.items| ensures IsEqualsFixed(b.items[i], a.items[i]) {
          IsEqualsFixedSymmetric(a.items[i], b.items[i]);
        }
      }
      if IsEqualsFixed(b, a) {
        forall i | 0 <= i < |a.items| ensures IsEqualsFixed(a.items[i], b.items[i]) {
          IsEqualsFixedSymmetric(a.items[i], b.items[i]);
        }
      }
    } else if a.Obj? {
      if IsEqualsFixed(a, b) {
        SameKeys(a.fields.Keys, b.fields.Keys);
        forall k | k in b.fields ensures k in a.fields && IsEqualsFixed(b.fields[k], a.fields[k]) {
          IsEqualsFixedSymmetric(a.fields[k], b.fields[k]);
        }
      }
      if IsEqualsFixed(b, a) {
        SameKeys(b.fields.Keys, a.fields.Keys);
        forall k | k in a.fields ensures k in b.fields && IsEqualsFixed(a.fields[k], b.fields[k]) {
          IsEqualsFixedSymmetric(a.fields[k], b.fields[k]);
        }
      }
    }
  }

  /** A subset of a finite set with as many elements is the whole set. */
  lemma SameKeys(x: set<string>, y: set<string>)
    requires x <= y && |x| == |y|
    ensures x == y
  {
    if x != y {
      var k :| k in y && k !in x;
      assert x <= y - {k};
      SubsetCard(x, y - {k});
      assert false;
    }
  }

  lemma {:induction false} SubsetCard(x: set<string>, y: set<string>)
    requires x <= y
    ensures |x| <= |y|
    decreases y
  {
    if x != {} {
      var k :| k in x;
      SubsetCard(x - {k}, y - {k});
    }
  }

  /** Where the key sets agree, the corrected comparison is the written one. */
  lemma {:induction false} IsEqualsFixedAgrees(a: Value, b: Value)
    requires IsEqualsFixed(a, b)
    ensures IsEquals(a, b)
    decreases a
  {
    if StrictEquals(a, b) || a.Null? || b.Null? || a.Undefined? || b.Undefined? {
    } else if a.Arr? {
      forall i | 0 <= i < |a.items| ensures IsEquals(a.items[i], b.items[i]) {
        IsEqualsFixedAgrees(a.items[i], b.items[i]);
      }
    } else if a.Obj? {
      forall k | k in a.fields ensures IsEquals(a.fields[k], Property(b, k)) {
        IsEqualsFixedAgrees(a.fields[k], b.fields[k]);
      }
    }
  }
}
