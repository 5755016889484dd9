/** The JavaScript values the object, array and type utilities work on,
    with the few language operations they use: typeof, truthiness, strict
    equality, String(), own enumerable properties and property reads. */
module JsValues {

  import opened Wrappers
  import opened Ascii
  import opened Decimals

  /** A JavaScript value. A finite number is the decimal its literal
      denotes; an object is its own enumerable string-keyed properties. */
  datatype Value =
    | Undefined
    | Null
    | Bool(b: bool)
    | Num(n: Dec)
    | NaN
    | Str(s: string)
    | Arr(items: seq<Value>)
    | Obj(fields: map<string, Value>)
    | Date(time: int)
    | RegExp(source: string, flags: string)
    | Func(name: string)

  const EmptyObject: Value := Obj(map[])

  /** The typeof operator. */
  function TypeOf(v: Value): string {
    match v
    case Undefined => "undefined"
    case Bool(_) => "boolean"
    case Num(_) => "number"
    case NaN => "number"
    case Str(_) => "string"
    case Func(_) => "function"
    case _ => "object"
  }

  /** Values that are objects to typeof, null excluded. */
  predicate IsObjectLike(v: Value) {
    TypeOf(v) == "object" && !v.Null?
  }

  /** Conversion to boolean: false, 0, NaN, '', null and undefined are falsy. */
  predicate Truthy(v: Value) {
    match v
    case Undefined => false
    case Null => false
    case Bool(b) => b
    case Num(x) => x.coef != 0
    case NaN => false
    case Str(s) => |s| > 0
    case _ => true
  }

  /** The === operator. Every array, object, date, regular expression and
      function is taken to be a distinct object, so two of them are never
      identical. */
  predicate StrictEquals(a: Value, b: Value) {
    match (a, b)
    case (Undefined, Undefined) => true
    case (Null, Null) => true
    case (Bool(x), Bool(y)) => x == y
    case (Num(x), Num(y)) => Cmp(x, y) == 0
    case (Str(x), Str(y)) => x == y
    case _ => false
  }

  lemma StrictEqualsSymmetric(a: Value, b: Value)
    ensures StrictEquals(a, b) == StrictEquals(b, a)
  {
    if a.Num? && b.Num? {
      CmpAntisymmetric(a.n, b.n);
    }
  }

  lemma CmpAntisymmetric(x: Dec, y: Dec)
    ensures Cmp(x, y) == -Cmp(y, x)
  {
  }

  /** The text RegExp.prototype.toString produces. */
  function RegExpText(source: string, flags: string): string {
    "/" + source + "/" + flags
  }

  /** The keys Object.keys gives for an array or a string: its indices. */
  function IndexEntries<T>(xs: seq<T>, f: T -> Value): (m: map<string, Value>)
    ensures forall i :: 0 <= i < |xs| ==> NatToString(i) in m && m[NatToString(i)] == f(xs[i])
    ensures forall k :: k in m ==>
      CanonicalIndex(k).Some? && CanonicalIndex(k).value < |xs| && m[k] == f(xs[CanonicalIndex(k).value])
  {
    forall i: nat, j: nat | NatToString(i) == NatToString(j) ensures i == j {
      NatToStringInjective(i, j);
    }
    map i | 0 <= i < |xs| :: NatToString(i) := f(xs[i])
  }

  /** Object.keys with the values they name: an object's own properties,
      an array's or a string's indices, nothing for other values. */
  function OwnEntries(v: Value): map<string, Value> {
    match v
    case Obj(fields) => fields
    case Arr(items) => IndexEntries(items, (x: Value) => x)
    case Str(s) => IndexEntries(s, (c: char) => Str([c]))
    case _ => map[]
  }

  /** The property read `v[key]` on a value that is not null or undefined:
      own enumerable properties, an array's or a string's elements and its
      length. Properties inherited from prototypes and own properties that
      are not enumerable (a regular expression's `lastIndex`, a function's
      `name` and `length`) are not modelled: they read as undefined. */
  function Property(v: Value, key: string): (r: Value)
    ensures v.Obj? ==> r == if key in v.fields then v.fields[key] else Undefined
  {
    match v
    case Obj(fields) => if key in fields then fields[key] else Undefined
    case Arr(items) =>
      if key == "length" then Num(Normalize(Dec(|items|, 0)))
      else
        var i := CanonicalIndex(key);
        if i.Some? && i.value < |items| then items[i.value] else Undefined
    case Str(s) =>
      if key == "length" then Num(Normalize(Dec(|s|, 0)))
      else
        var i := CanonicalIndex(key);
        if i.Some? && i.value < |s| then Str([s[i.value]]) else Undefined
    case _ => Undefined
  }

  /** Every own entry is what a property read of its key gives. */
  lemma OwnEntriesRead(v: Value, key: string)
    requires key in OwnEntries(v)
    ensures Property(v, key) == OwnEntries(v)[key]
  {
    match v
    case Obj(_) =>
    case Arr(items) =>
      assert key != "length";
    case Str(s) =>
      assert key != "length";
  }

  // ---------------------------------------------------------------------
  // String()

  /** `x` with trailing zeros of its coefficient moved into the exponent. */
  function Normalize(x: Dec): (r: Dec)
    ensures r.coef == 0 ==> x.coef == 0
    decreases Abs(x.coef)
  {
    if x.coef == 0 then Zero
    else if x.coef % 10 == 0 then Normalize(Dec(x.coef / 10, x.exp + 1))
    else x
  }

  /** The one way of writing a number the model takes as its own: no
      trailing zeros in the coefficient, and zero as `Zero`. */
  predicate Canonical(x: Dec) {
    x == Zero || x.coef % 10 != 0
  }

  /** Normalize writes every number canonically and keeps one that is. */
  lemma {:induction false} NormalizeCanonical(x: Dec)
    ensures Canonical(Normalize(x))
    ensures Canonical(x) ==> Normalize(x) == x
    decreases Abs(x.coef)
  {
    if x.coef != 0 && x.coef % 10 == 0 {
      NormalizeCanonical(Dec(x.coef / 10, x.exp + 1));
    }
  }

  /** Two canonical numbers of the same value are the same decimal. */
  lemma CanonicalUnique(x: Dec, y: Dec)
    requires Canonical(x) && Canonical(y) && Cmp(x, y) == 0
    ensures x == y
  {
    if x.exp < y.exp {
      CanonicalBelow(x, y);
    } else if y.exp < x.exp {
      CanonicalBelow(y, x);
    }
  }

  /** Written at a smaller exponent, a nonzero value needs a coefficient
      ending in zero, so a canonical one cannot match. */
  lemma CanonicalBelow(x: Dec, y: Dec)
    requires Canonical(x) && x.exp < y.exp && Cmp(x, y) == 0
    ensures x == Zero && y.coef == 0
  {
    var k: nat := y.exp - x.exp - 1;
    assert Min(x.exp, y.exp) == x.exp && Align(x, x.exp) == x.coef;
    assert Pow10(y.exp - x.exp) == 10 * Pow10(k);
    var c := y.coef * Pow10(k);
    assert Align(y, x.exp) == y.coef * (10 * Pow10(k)) == 10 * c;
    assert x.coef == 10 * c;
  }

  /** Number to string in plain positional notation. */
  function NumberText(x: Dec): string {
    var y := Normalize(x);
    if y.exp >= 0 then Render(y.coef * Pow10(y.exp), 0)
    else Render(y.coef, -y.exp)
  }

  /** String(v). A date or a function is written by a stand-in built from
      its timestamp or name. */
  function ToJsString(v: Value): string {
    match v
    case Undefined => "undefined"
    case Null => "null"
    case Bool(b) => if b then "true" else "false"
    case Num(x) => NumberText(x)
    case NaN => "NaN"
    case Str(s) => s
    case Arr(items) => JoinItems(items)
    case Obj(_) => "[object Object]"
    case Date(t) => "Date(" + (if t < 0 then "-" else "") + NatToString(Abs(t)) + ")"
    case RegExp(source, flags) => RegExpText(source, flags)
    case Func(name) => "function " + name
  }

  /** Array.prototype.join(','), writing null and undefined as ''. */
  function JoinItems(items: seq<Value>): string
    decreases items
  {
    if items == [] then ""
    else
      var first := if items[0].Null? || items[0].Undefined? then "" else ToJsString(items[0]);
      if |items| == 1 then first else first + "," + JoinItems(items[1..])
  }
}
