/** Array utilities: deduplication, flattening, grouping, set operations,
    integer ranges, and the conversion between flat records and trees. */
module ArrayUtils {

  import opened Wrappers
  import opened Ascii
  import opened Decimals
  import opened JsValues

  // ---------------------------------------------------------------------
  // unique, intersection, except, union
  //
  // Element equality is the equality of the values themselves. On
  // primitives with canonically written numbers that is SameValueZero, the
  // equality a Set uses (SameKeyEquality); the reference identity a Set
  // uses for objects is not modelled.

  predicate NoDuplicates<T(==)>(xs: seq<T>) {
    forall i, j :: 0 <= i < j < |xs| ==> xs[i] != xs[j]
  }

  /** The index of the first occurrence of `x`. */
  function Position<T(==)>(xs: seq<T>, x: T): (r: nat)
    requires x in xs
    ensures r < |xs| && xs[r] == x && x !in xs[..r]
  {
    if xs[0] == x then 0 else 1 + Position(xs[1..], x)
  }

  /** Array.from(new Set(arr)): a Set keeps the first insertion of each
      element, in insertion order. */
  function Unique<T(==)>(xs: seq<T>): (r: seq<T>)
    ensures NoDuplicates(r)
    ensures forall i :: 0 <= i < |r| ==> r[i] in xs
    ensures forall i :: 0 <= i < |xs| ==> xs[i] in r
    ensures |r| <= |xs|
  {
    if xs == [] then []
    else
      var r := Unique(xs[..|xs| - 1]);
      var x := xs[|xs| - 1];
      assert xs == xs[..|xs| - 1] + [x];
      if x in r then r else r + [x]
  }

  /** The first occurrence of an element in `xs` comes before the first
      occurrence of any element placed after it by Unique. */
  lemma {:induction false} UniqueOrder<T>(xs: seq<T>, i: nat, j: nat)
    requires i < j < |Unique(xs)|
    ensures Position(xs, Unique(xs)[i]) < Position(xs, Unique(xs)[j])
    decreases |xs|
  {
    var front, x := xs[..|xs| - 1], xs[|xs| - 1];
    assert xs == front + [x];
    var r := Unique(front);
    var u := Unique(xs);
    if j < |r| {
      UniqueOrder(front, i, j);
      PositionAppend(front, x, u[i]);
      PositionAppend(front, x, u[j]);
    } else {
      assert u[j] == x && x !in front;
      PositionAppend(front, x, u[i]);
      assert Position(xs, u[i]) < |front|;
      PositionLast(front, x);
    }
  }

  lemma {:induction false} PositionAppend<T>(xs: seq<T>, x: T, y: T)
    requires y in xs
    ensures Position(xs + [x], y) == Position(xs, y)
  {
    if xs[0] != y {
      assert (xs + [x])[1..] == xs[1..] + [x];
      PositionAppend(xs[1..], x, y);
    }
  }

  lemma PositionLast<T>(xs: seq<T>, x: T)
    requires x !in xs
    ensures Position(xs + [x], x) == |xs|
  {
    forall i | 0 <= i < |xs| ensures (xs + [x])[i] != x {
      assert (xs + [x])[i] == xs[i];
    }
  }

  /** An array without duplicates is kept as it is. */
  lemma {:induction false} UniqueOfDistinct<T>(xs: seq<T>)
    requires NoDuplicates(xs)
    ensures Unique(xs) == xs
  {
    if xs != [] {
      var front := xs[..|xs| - 1];
      UniqueOfDistinct(front);
      assert xs[|xs| - 1] !in front;
      assert xs == front + [xs[|xs| - 1]];
    }
  }

  /** Deduplicating twice is deduplicating once. */
  lemma UniqueIdempotent<T>(xs: seq<T>)
    ensures Unique(Unique(xs)) == Unique(xs)
  {
    UniqueOfDistinct(Unique(xs));
  }

  /** arr1.filter(item => set.has(item)) with set = new Set(arr2). */
  function Intersection<T(==)>(a: seq<T>, b: seq<T>): seq<T> {
    if a == [] then []
    else Intersection(a[..|a| - 1], b) + (if a[|a| - 1] in b then [a[|a| - 1]] else [])
  }

  /** arr1.filter(item => !set.has(item)) with set = new Set(arr2). */
  function Except<T(==)>(a: seq<T>, b: seq<T>): seq<T> {
    if a == [] then []
    else Except(a[..|a| - 1], b) + (if a[|a| - 1] !in b then [a[|a| - 1]] else [])
  }

  /** Intersection and Except split `a` between them: every occurrence of
      an element of `a` goes to exactly one of the two. */
  lemma {:induction false} IntersectionExceptPartition<T>(a: seq<T>, b: seq<T>)
    ensures multiset(Intersection(a, b)) + multiset(Except(a, b)) == multiset(a)
  {
    if a != [] {
      var front, x := a[..|a| - 1], a[|a| - 1];
      IntersectionExceptPartition(front, b);
      assert a == front + [x];
      assert multiset(a) == multiset(front) + multiset{x};
    }
  }

  /** Which of the two an element goes to depends on its membership in `b`. */
  lemma {:induction false} IntersectionExceptMembers<T>(a: seq<T>, b: seq<T>)
    ensures forall x :: x in Intersection(a, b) <==> x in a && x in b
    ensures forall x :: x in Except(a, b) <==> x in a && x !in b
  {
    if a != [] {
      var front, x := a[..|a| - 1], a[|a| - 1];
      IntersectionExceptMembers(front, b);
      assert a == front + [x];
    }
  }

  /** Both keep the order of `a`: filtering a concatenation filters its
      parts. */
  lemma {:induction false} IntersectionAppend<T>(a1: seq<T>, a2: seq<T>, b: seq<T>)
    ensures Intersection(a1 + a2, b) == Intersection(a1, b) + Intersection(a2, b)
    decreases |a2|
  {
    if a2 == [] {
      assert a1 + a2 == a1;
    } else {
      var front := a2[..|a2| - 1];
      IntersectionAppend(a1, front, b);
      assert (a1 + a2)[..|a1 + a2| - 1] == a1 + front;
    }
  }

  lemma {:induction false} ExceptAppend<T>(a1: seq<T>, a2: seq<T>, b: seq<T>)
    ensures Except(a1 + a2, b) == Except(a1, b) + Except(a2, b)
    decreases |a2|
  {
    if a2 == [] {
      assert a1 + a2 == a1;
    } else {
      var front := a2[..|a2| - 1];
      ExceptAppend(a1, front, b);
      assert (a1 + a2)[..|a1 + a2| - 1] == a1 + front;
    }
  }

  /** arrays.flat(): the concatenation of the given arrays. */
  function Concat<T>(arrays: seq<seq<T>>): (r: seq<T>)
    ensures forall k :: 0 <= k < |r| ==> exists i :: 0 <= i < |arrays| && r[k] in arrays[i]
    ensures forall i, k :: 0 <= i < |arrays| && 0 <= k < |arrays[i]| ==> arrays[i][k] in r
  {
    if arrays == [] then []
    else
      var front := arrays[..|arrays| - 1];
      var r := Concat(front) + arrays[|arrays| - 1];
      assert forall i :: 0 <= i < |front| ==> arrays[i] == front[i];
      r
  }

  /** union(...arrays) = unique(arrays.flat()). */
  function Union<T(==)>(arrays: seq<seq<T>>): seq<T> {
    Unique(Concat(arrays))
  }

  /** The union holds each element of any of the arrays exactly once. */
  lemma UnionMembers<T>(arrays: seq<seq<T>>)
    ensures NoDuplicates(Union(arrays))
    ensures forall k :: 0 <= k < |Union(arrays)| ==> exists i :: 0 <= i < |arrays| && Union(arrays)[k] in arrays[i]
    ensures forall i, k :: 0 <= i < |arrays| && 0 <= k < |arrays[i]| ==> arrays[i][k] in Union(arrays)
  {
  }

  /** A value a Set tells apart from others by SameValueZero alone: a
      primitive, its number (if any) written canonically. */
  predicate SetKey(v: Value) {
    match v
    case Num(x) => Canonical(x)
    case Arr(_) => false
    case Obj(_) => false
    case Date(_) => false
    case RegExp(_, _) => false
    case Func(_) => false
    case _ => true
  }

  /** On such values the element equality above is SameValueZero. */
  lemma SameKeyEquality(a: Value, b: Value)
    requires SetKey(a) && SetKey(b)
    ensures SameKey(a, b) <==> a == b
  {
    if a.Num? && b.Num? && SameKey(a, b) {
      CanonicalUnique(a.n, b.n);
    }
    if a == b && a.Num? {
      assert Cmp(a.n, a.n) == 0;
    }
  }

  /** So on such elements unique keeps one element of each SameValueZero
      class, as `new Set(arr)` does: no two kept elements are
      SameValueZero, and each element has a SameValueZero match kept. */
  lemma UniqueSameValueZero(xs: seq<Value>)
    requires forall i :: 0 <= i < |xs| ==> SetKey(xs[i])
    ensures var r := Unique(xs);
      && (forall i, j :: 0 <= i < j < |r| ==> !SameKey(r[i], r[j]))
      && (forall i :: 0 <= i < |xs| ==> exists j :: 0 <= j < |r| && SameKey(xs[i], r[j]))
  {
    var r := Unique(xs);
    forall i, j | 0 <= i < j < |r| ensures !SameKey(r[i], r[j]) {
      var p, q := Position(xs, r[i]), Position(xs, r[j]);
      SameKeyEquality(xs[p], xs[q]);
    }
    forall i | 0 <= i < |xs| ensures exists j :: 0 <= j < |r| && SameKey(xs[i], r[j]) {
      var j := Position(r, xs[i]);
      SameKeyEquality(xs[i], r[j]);
    }
  }

  /** And `set.has(item)` in intersection and except is SameValueZero
      membership. */
  lemma IntersectionSameValueZero(a: seq<Value>, b: seq<Value>)
    requires forall i :: 0 <= i < |a| ==> SetKey(a[i])
    requires forall j :: 0 <= j < |b| ==> SetKey(b[j])
    ensures forall i :: 0 <= i < |a| ==>
      (a[i] in Intersection(a, b) <==> exists j :: 0 <= j < |b| && SameKey(a[i], b[j]))
    ensures forall i :: 0 <= i < |a| ==>
      (a[i] in Except(a, b) <==> !exists j :: 0 <= j < |b| && SameKey(a[i], b[j]))
  {
    IntersectionExceptMembers(a, b);
    forall i, j | 0 <= i < |a| && 0 <= j < |b| ensures SameKey(a[i], b[j]) <==> a[i] == b[j] {
      SameKeyEquality(a[i], b[j]);
    }
  }

  // ---------------------------------------------------------------------
  // flatten

  /** What `acc.concat(val)` appends: the elements of an array, or the
      value itself. */
  function Spread(v: Value): seq<Value> {
    if v.Arr? then v.items else [v]
  }

  /** flatten's default depth. */
  const DefaultDepth := 1

  /** flatten(arr, depth): a left fold that concatenates each element,
      after flattening it depth - 1 levels first when depth > 1 and it is
      an array. */
  function Flatten(xs: seq<Value>, depth: int): seq<Value>
    decreases xs
  {
    if xs == [] then []
    else Flatten(xs[..|xs| - 1], depth) + Spread(Piece(xs[|xs| - 1], depth))
  }

  function Piece(v: Value, depth: int): Value
    decreases v
  {
    if depth > 1 && v.Arr? then Arr(Flatten(v.items, depth - 1)) else v
  }

  /** How deeply arrays nest inside a value. */
  function Depth(v: Value): nat
    decreases v
  {
    if v.Arr? then 1 + MaxDepth(v.items) else 0
  }

  function MaxDepth(xs: seq<Value>): nat
    decreases xs
  {
    if xs == [] then 0 else Max(MaxDepth(xs[..|xs| - 1]), Depth(xs[|xs| - 1]))
  }

  function Max(a: nat, b: nat): nat {
    if a < b then b else a
  }

  /** The non-array values of a nest of arrays, in order. */
  function Leaves(xs: seq<Value>): seq<Value>
    decreases xs
  {
    if xs == [] then [] else Leaves(xs[..|xs| - 1]) + LeavesOf(xs[|xs| - 1])
  }

  function LeavesOf(v: Value): seq<Value>
    decreases v
  {
    if v.Arr? then Leaves(v.items) else [v]
  }

  lemma {:induction false} MaxDepthAppend(a: seq<Value>, b: seq<Value>)
    ensures MaxDepth(a + b) == Max(MaxDepth(a), MaxDepth(b))
    decreases |b|
  {
    if b == [] {
      assert a + b == a;
    } else {
      MaxDepthAppend(a, b[..|b| - 1]);
      assert (a + b)[..|a + b| - 1] == a + b[..|b| - 1];
    }
  }

  lemma {:induction false} LeavesAppend(a: seq<Value>, b: seq<Value>)
    ensures Leaves(a + b) == Leaves(a) + Leaves(b)
    decreases |b|
  {
    if b == [] {
      assert a + b == a;
    } else {
      LeavesAppend(a, b[..|b| - 1]);
      assert (a + b)[..|a + b| - 1] == a + b[..|b| - 1];
    }
  }

  /** A nesting depth less the levels a flatten by `depth` removes: at
      least one, and `depth` when it is larger. */
  function Lowered(n: nat, depth: int): nat {
    var levels := if depth > 1 then depth else 1;
    if n > levels then n - levels else 0
  }

  /** Flattening by `depth` removes exactly `depth` levels of nesting
      (one when `depth` is at most 1), or all of them when there are fewer. */
  lemma {:induction false} FlattenDepth(xs: seq<Value>, depth: int)
    ensures MaxDepth(Flatten(xs, depth)) == Lowered(MaxDepth(xs), depth)
    decreases xs
  {
    if xs != [] {
      var front, v := xs[..|xs| - 1], xs[|xs| - 1];
      FlattenDepth(front, depth);
      PieceDepth(v, depth);
      MaxDepthAppend(Flatten(front, depth), Spread(Piece(v, depth)));
    }
  }

  lemma {:induction false} PieceDepth(v: Value, depth: int)
    ensures MaxDepth(Spread(Piece(v, depth))) == Lowered(Depth(v), depth)
    decreases v
  {
    if v.Arr? {
      if depth > 1 {
        FlattenDepth(v.items, depth - 1);
      }
    } else {
      assert Spread(v) == [v];
      assert [v][..0] == [];
    }
  }

  /** Flattening keeps every non-array value, in order. */
  lemma {:induction false} FlattenLeaves(xs: seq<Value>, depth: int)
    ensures Leaves(Flatten(xs, depth)) == Leaves(xs)
    decreases xs
  {
    if xs != [] {
      var front, v := xs[..|xs| - 1], xs[|xs| - 1];
      FlattenLeaves(front, depth);
      PieceLeaves(v, depth);
      LeavesAppend(Flatten(front, depth), Spread(Piece(v, depth)));
    }
  }

  lemma {:induction false} PieceLeaves(v: Value, depth: int)
    ensures Leaves(Spread(Piece(v, depth))) == LeavesOf(v)
    decreases v
  {
    if v.Arr? {
      if depth > 1 {
        FlattenLeaves(v.items, depth - 1);
      }
    } else {
      assert [v][..0] == [];
    }
  }

  // ---------------------------------------------------------------------
  // group

  /** String(item[key]). */
  function GroupKey(item: Value, key: string): string {
    ToJsString(Property(item, key))
  }

  /** The items, in order, whose group key is `k`. */
  function Bucket(items: seq<Value>, key: string, k: string): seq<Value> {
    if items == [] then []
    else
      var front, x := items[..|items| - 1], items[|items| - 1];
      Bucket(front, key, k) + (if GroupKey(x, key) == k then [x] else [])
  }

  /** One more item, kept or not by a filter that decides equal items
      alike, keeps the count of `x` in the filtered list in step. */
  lemma CountFiltered(kept: seq<Value>, front: seq<Value>, y: Value, x: Value, keepX: bool, keepY: bool)
    requires y == x ==> keepX == keepY
    requires multiset(kept)[x] == if keepX then multiset(front)[x] else 0
    ensures multiset(kept + if keepY then [y] else [])[x] == if keepX then multiset(front + [y])[x] else 0
  {
    assert multiset(front + [y]) == multiset(front) + multiset{y};
    if keepY {
      assert multiset(kept + [y]) == multiset(kept) + multiset{y};
    } else {
      assert kept + [] == kept;
    }
  }

  /** Every occurrence of an item is in the bucket of its own key and in
      no other. */
  lemma {:induction false} BucketCount(items: seq<Value>, key: string, k: string, x: Value)
    ensures multiset(Bucket(items, key, k))[x] == if GroupKey(x, key) == k then multiset(items)[x] else 0
  {
    if items != [] {
      var front, y := items[..|items| - 1], items[|items| - 1];
      BucketCount(front, key, k, x);
      assert items == front + [y];
      CountFiltered(Bucket(front, key, k), front, y, x, GroupKey(x, key) == k, GroupKey(y, key) == k);
    }
  }

  /** The loop step of `Group`: pushing item `i` onto its bucket groups the
      first i + 1 items. */
  lemma GroupPush(groups: map<string, seq<Value>>, items: seq<Value>, i: nat, key: string)
    requires i < |items| && Grouped(groups, items[..i], key)
    ensures Grouped(Pushed(groups, GroupKey(items[i], key), items[i]), items[..i + 1], key)
  {
    GroupedStep(groups, items[..i], key, items[i]);
    assert items[..i + 1] == items[..i] + [items[i]];
  }

  /** group(arr, key): reduces the items into an object of buckets, creating
      a bucket for a key the first time it is seen and pushing each item
      onto the bucket of its key. */
  method Group(items: seq<Value>, key: string) returns (groups: map<string, seq<Value>>)
    requires forall i :: 0 <= i < |items| ==> !items[i].Null? && !items[i].Undefined?
    ensures groups.Keys == GroupKeys(items, key)
    ensures forall k :: k in groups ==> groups[k] == Bucket(items, key, k)
  {
    groups := map[];
    for i := 0 to |items|
      invariant Grouped(groups, items[..i], key)
    {
      var x := items[i];
      var k := GroupKey(x, key);
      var bucket := if k in groups then groups[k] else [];
      GroupPush(groups, items, i, key);
      assert groups[k := bucket + [x]] == Pushed(groups, k, x);
      groups := groups[k := bucket + [x]];
    }
    assert items[..|items|] == items;
    assert Grouped(groups, items, key);
  }

  /** The group keys of the items, in a set. */
  function GroupKeys(items: seq<Value>, key: string): set<string> {
    if items == [] then {} else GroupKeys(items[..|items| - 1], key) + {GroupKey(items[|items| - 1], key)}
  }

  /** Every key of an item is a group key. */
  lemma {:induction false} GroupKeysCover(items: seq<Value>, key: string)
    ensures forall i :: 0 <= i < |items| ==> GroupKey(items[i], key) in GroupKeys(items, key)
  {
    if items != [] {
      var front := items[..|items| - 1];
      GroupKeysCover(front, key);
      forall i | 0 <= i < |front| ensures items[i] == front[i] {
      }
    }
  }

  /** Every group key is the key of some item. */
  lemma {:induction false} GroupKeysWitnessed(items: seq<Value>, key: string, k: string)
    requires k in GroupKeys(items, key)
    ensures exists i :: 0 <= i < |items| && GroupKey(items[i], key) == k
  {
    var front, last := items[..|items| - 1], items[|items| - 1];
    if GroupKey(last, key) == k {
      assert GroupKey(items[|items| - 1], key) == k;
    } else {
      GroupKeysWitnessed(front, key, k);
      var i :| 0 <= i < |front| && GroupKey(front[i], key) == k;
      assert items[i] == front[i];
    }
  }

  /** The buckets of the items seen so far, keyed by every group key seen. */
  predicate Grouped(groups: map<string, seq<Value>>, items: seq<Value>, key: string) {
    && groups.Keys == GroupKeys(items, key)
    && forall k :: k in groups ==> groups[k] == Bucket(items, key, k)
  }

  /** The bucket of `k` with `x` pushed, created empty first if needed. */
  function Pushed(groups: map<string, seq<Value>>, k: string, x: Value): map<string, seq<Value>> {
    groups[k := (if k in groups then groups[k] else []) + [x]]
  }

  lemma GroupedStep(groups: map<string, seq<Value>>, items: seq<Value>, key: string, x: Value)
    requires Grouped(groups, items, key)
    ensures Grouped(Pushed(groups, GroupKey(x, key), x), items + [x], key)
  {
    var k := GroupKey(x, key);
    assert (items + [x])[..|items|] == items;
    if k !in groups {
      BucketAbsent(items, key, k);
    }
    BucketAppend(items, key, x);
  }

  /** A key no item has has an empty bucket. */
  lemma {:induction false} BucketAbsent(items: seq<Value>, key: string, k: string)
    requires k !in GroupKeys(items, key)
    ensures Bucket(items, key, k) == []
  {
    if items != [] {
      BucketAbsent(items[..|items| - 1], key, k);
    }
  }

  lemma BucketAppend(items: seq<Value>, key: string, x: Value)
    ensures forall k :: Bucket(items + [x], key, k) == Bucket(items, key, k) + (if GroupKey(x, key) == k then [x] else [])
  {
    assert (items + [x])[..|items|] == items;
  }

  // ---------------------------------------------------------------------
  // range

  /** start, start + step, ... while below `end`. */
  function RangeSeq(start: int, end: int, step: nat): seq<int>
    requires step > 0
    decreases end - start
  {
    if start < end then [start] + RangeSeq(start + step, end, step) else []
  }

  /** The range is the arithmetic progression from `start` that stops at
      the first element not below `end`. */
  lemma {:induction false} RangeSeqShape(start: int, end: int, step: nat)
    requires step > 0
    ensures forall k :: 0 <= k < |RangeSeq(start, end, step)| ==>
      RangeSeq(start, end, step)[k] == start + k * step && RangeSeq(start, end, step)[k] < end
    ensures start + |RangeSeq(start, end, step)| * step >= end
    ensures start >= end ==> RangeSeq(start, end, step) == []
    decreases end - start
  {
    if start < end {
      var r, rest := RangeSeq(start, end, step), RangeSeq(start + step, end, step);
      RangeSeqShape(start + step, end, step);
      assert r == [start] + rest;
      forall k | 1 <= k < |r|
        ensures r[k] == start + k * step
      {
        assert r[k] == rest[k - 1];
        MulSucc(k - 1, step);
      }
      MulSucc(|rest|, step);
    }
  }

  lemma MulSucc(a: int, b: int)
    ensures (a + 1) * b == a * b + b
  {
  }

  /** range(start, end?, step): with `end` absent the range is from 0 to
      `start`. */
  method Range(start: int, end: Option<int>, step: nat) returns (r: seq<int>)
    requires step > 0
    ensures end.None? ==> r == RangeSeq(0, start, step)
    ensures end.Some? ==> r == RangeSeq(start, end.value, step)
  {
    var lo, hi := start, 0;
    if end.None? {
      lo, hi := 0, start;
    } else {
      hi := end.value;
    }
    r := [];
    var i := lo;
    while i < hi
      invariant r + RangeSeq(i, hi, step) == RangeSeq(lo, hi, step)
      decreases hi - i
    {
      r := r + [i];
      i := i + step;
    }
  }

  // ---------------------------------------------------------------------
  // arrayToTree
  //
  // The nodes are named by the index of the item that created them; the
  // tree is the list of root nodes and, per node, the list of its children.

  /** The property names arrayToTree reads and writes, and the parent id
      that marks a root. */
  datatype TreeOptions = TreeOptions(id: string, parentId: string, children: string, rootParentId: Value)

  const DefaultTreeOptions := TreeOptions("id", "parentId", "children", Null)

  /** Map key equality (SameValueZero): === except that NaN matches NaN. */
  predicate SameKey(a: Value, b: Value) {
    StrictEquals(a, b) || (a.NaN? && b.NaN?)
  }

  /** The values of property `key` of the items, in order. */
  function Ids(items: seq<Value>, key: string): (r: seq<Value>)
    ensures |r| == |items|
    ensures forall i :: 0 <= i < |items| ==> r[i] == Property(items[i], key)
  {
    seq(|items|, i requires 0 <= i < |items| => Property(items[i], key))
  }

  /** map.get(k) after the first pass: the node of the last item whose id
      matches `k`, since a later map.set replaces an earlier one. */
  function LastMatch(ids: seq<Value>, k: Value): (r: Option<nat>)
    ensures r.Some? ==> r.value < |ids|
  {
    if ids == [] then None
    else if SameKey(ids[|ids| - 1], k) then Some(|ids| - 1)
    else LastMatch(ids[..|ids| - 1], k)
  }

  /** A match found is the last one; none found means none matches. */
  lemma {:induction false} LastMatchSpec(ids: seq<Value>, k: Value)
    ensures var r := LastMatch(ids, k);
      && (r.Some? ==> SameKey(ids[r.value], k) && forall j :: r.value < j < |ids| ==> !SameKey(ids[j], k))
      && (r.None? ==> forall j :: 0 <= j < |ids| ==> !SameKey(ids[j], k))
  {
    if ids != [] && !SameKey(ids[|ids| - 1], k) {
      var front := ids[..|ids| - 1];
      LastMatchSpec(front, k);
      assert forall j :: 0 <= j < |front| ==> front[j] == ids[j];
    }
  }

  /** Where the second pass puts the node of an item: among the roots, or
      at the end of a parent's children. */
  datatype Place = AtRoot(node: nat) | UnderParent(parent: nat, node: nat)

  /** The place of item `i`. Its node is the one its id maps to (an id that
      is an object is a key only for itself, so it finds the item's own
      node); it is a root when its parent id is rootParentId or names no
      node. */
  function PlaceOf(ids: seq<Value>, parents: seq<Value>, root: Value, i: nat): (r: Place)
    requires i < |ids| == |parents|
    ensures r.AtRoot? <==> StrictEquals(parents[i], root) || LastMatch(ids, parents[i]).None?
    ensures r.UnderParent? ==> r.parent < |ids|
  {
    var found := LastMatch(ids, ids[i]);
    var node := if found.Some? then found.value else i;
    var parent := LastMatch(ids, parents[i]);
    if StrictEquals(parents[i], root) || parent.None? then AtRoot(node)
    else UnderParent(parent.value, node)
  }

  /** The places of all items. */
  function Places(items: seq<Value>, o: TreeOptions): (r: seq<Place>)
    ensures |r| == |items|
  {
    PlacesUpTo(Ids(items, o.id), Ids(items, o.parentId), o.rootParentId, |items|)
  }

  /** The places of the first `n` items. */
  function PlacesUpTo(ids: seq<Value>, parents: seq<Value>, root: Value, n: nat): (r: seq<Place>)
    requires n <= |ids| == |parents|
    ensures |r| == n
  {
    if n == 0 then [] else PlacesUpTo(ids, parents, root, n - 1) + [PlaceOf(ids, parents, root, n - 1)]
  }

  /** The roots once the first `n` places are handled. */
  function Roots(places: seq<Place>, n: nat): seq<nat>
    requires n <= |places|
  {
    if n == 0 then []
    else Roots(places, n - 1) + (if places[n - 1].AtRoot? then [places[n - 1].node] else [])
  }

  /** The children of node `p` once the first `n` places are handled. */
  function Children(places: seq<Place>, n: nat, p: nat): seq<nat>
    requires n <= |places|
  {
    if n == 0 then []
    else
      Children(places, n - 1, p)
      + (if places[n - 1].UnderParent? && places[n - 1].parent == p then [places[n - 1].node] else [])
  }

  /** arrayToTree(arr, options): the first pass creates a node per item,
      with an empty children list, and maps its id to it; the second pass
      appends each item's node to the roots or to its parent's children.
      Node `i` holds the own properties of item `i`, with `children[i]` as
      its children list. */
  method ArrayToTree(items: seq<Value>, o: TreeOptions) returns (roots: seq<nat>, children: array<seq<nat>>)
    requires forall i :: 0 <= i < |items| ==> !items[i].Null? && !items[i].Undefined?
    ensures fresh(children) && children.Length == |items|
    ensures roots == Roots(Places(items, o), |items|)
    ensures forall p :: 0 <= p < |items| ==> children[p] == Children(Places(items, o), |items|, p)
  {
    var ids;
    children, ids := CreateNodes(items, o);
    roots := PlaceNodes(items, o, ids, Places(items, o), children);
    assert children[..] == ChildLists(Places(items, o), |items|, |items|);
  }

  /** The first pass: an empty children list per item, and the ids in
      order. */
  method CreateNodes(items: seq<Value>, o: TreeOptions) returns (children: array<seq<nat>>, ids: seq<Value>)
    ensures fresh(children) && children.Length == |items|
    ensures forall p :: 0 <= p < |items| ==> children[p] == []
    ensures ids == Ids(items, o.id)
  {
    children := new seq<nat>[|items|];
    ids := [];
    for i := 0 to |items|
      invariant ids == Ids(items[..i], o.id)
      invariant forall p :: 0 <= p < i ==> children[p] == []
    {
      children[i] := [];
      ids := ids + [Property(items[i], o.id)];
    }
    assert items[..|items|] == items;
  }

  /** The second pass: each item's node is appended to the roots or to its
      parent's children. */
  method PlaceNodes(items: seq<Value>, o: TreeOptions, ids: seq<Value>, ghost places: seq<Place>, children: array<seq<nat>>)
    returns (roots: seq<nat>)
    requires ids == Ids(items, o.id) && places == Places(items, o) && children.Length == |items|
    requires forall p :: 0 <= p < |items| ==> children[p] == []
    modifies children
    ensures roots == Roots(places, |items|)
    ensures children[..] == ChildLists(places, |items|, |items|)
  {
    roots := [];
    assert children[..] == ChildLists(places, 0, |items|);
    for i := 0 to |items|
      invariant roots == Roots(places, i)
      invariant children[..] == ChildLists(places, i, |items|)
    {
      roots := PlaceNode(items, o, ids, places, i, roots, children);
    }
  }

  /** The children lists of nodes `0 .. n-1` once the first `i` places are
      handled. */
  function ChildLists(places: seq<Place>, i: nat, n: nat): (r: seq<seq<nat>>)
    requires i <= |places|
    ensures |r| == n && forall p :: 0 <= p < n ==> r[p] == Children(places, i, p)
  {
    seq(n, p requires 0 <= p < n => Children(places, i, p))
  }

  /** `lists` with `place`'s node appended to its parent's list. */
  function Placed(lists: seq<seq<nat>>, place: Place): (r: seq<seq<nat>>)
    ensures |r| == |lists|
  {
    if place.UnderParent? && place.parent < |lists| then lists[place.parent := lists[place.parent] + [place.node]]
    else lists
  }

  lemma ChildListsStep(places: seq<Place>, i: nat, n: nat)
    requires i < |places|
    ensures ChildLists(places, i + 1, n) == Placed(ChildLists(places, i, n), places[i])
  {
    forall p | 0 <= p < n
      ensures ChildLists(places, i + 1, n)[p] == Placed(ChildLists(places, i, n), places[i])[p]
    {
      ChildrenStep(places, i, p);
    }
  }

  /** One step of the second pass: item `i`'s node joins the roots or the
      end of its parent's children. */
  method PlaceNode(items: seq<Value>, o: TreeOptions, ids: seq<Value>, ghost places: seq<Place>, i: nat,
                   roots0: seq<nat>, children: array<seq<nat>>)
    returns (roots: seq<nat>)
    requires ids == Ids(items, o.id) && places == Places(items, o) && i < |items| == children.Length
    requires roots0 == Roots(places, i)
    requires children[..] == ChildLists(places, i, |items|)
    modifies children
    ensures roots == Roots(places, i + 1)
    ensures children[..] == ChildLists(places, i + 1, |items|)
  {
    RootsStep(places, i);
    ChildListsStep(places, i, |items|);
    var found := LastMatch(ids, Property(items[i], o.id));
    var node := if found.Some? then found.value else i;
    var parentId := Property(items[i], o.parentId);
    var parent := LastMatch(ids, parentId);
    var atRoot := StrictEquals(parentId, o.rootParentId) || parent.None?;
    PlaceIs(items, o, i, node, atRoot, parent);
    if atRoot {
      roots := roots0 + [node];
    } else {
      roots := roots0;
      children[parent.value] := children[parent.value] + [node];
    }
  }

  /** Item `i`'s place is what the second pass computes for it. */
  lemma PlaceIs(items: seq<Value>, o: TreeOptions, i: nat, node: nat, atRoot: bool, parent: Option<nat>)
    requires i < |items|
    requires node == var found := LastMatch(Ids(items, o.id), Property(items[i], o.id));
      if found.Some? then found.value else i
    requires parent == LastMatch(Ids(items, o.id), Property(items[i], o.parentId))
    requires atRoot == (StrictEquals(Property(items[i], o.parentId), o.rootParentId) || parent.None?)
    ensures Places(items, o)[i] == if atRoot then AtRoot(node) else UnderParent(parent.value, node)
  {
    PlaceAt(items, o, i);
  }

  /** Item `i`'s place, from its own id and parent id. */
  lemma PlaceAt(items: seq<Value>, o: TreeOptions, i: nat)
    requires i < |items|
    ensures Places(items, o)[i]
      == PlaceOf(Ids(items, o.id), Ids(items, o.parentId), o.rootParentId, i)
  {
    PlaceUpTo(Ids(items, o.id), Ids(items, o.parentId), o.rootParentId, |items|, i);
  }

  lemma {:induction false} PlaceUpTo(ids: seq<Value>, parents: seq<Value>, root: Value, n: nat, i: nat)
    requires i < n <= |ids| == |parents|
    ensures PlacesUpTo(ids, parents, root, n)[i] == PlaceOf(ids, parents, root, i)
  {
    if i < n - 1 {
      PlaceUpTo(ids, parents, root, n - 1, i);
    }
  }

  /** Handling place `i` adds its node to the roots exactly when it is at
      the root. */
  lemma RootsStep(places: seq<Place>, i: nat)
    requires i < |places|
    ensures Roots(places, i + 1) == Roots(places, i) + if places[i].AtRoot? then [places[i].node] else []
  {
  }

  /** Handling place `i` adds its node to `p`'s children exactly when it
      is under `p`. */
  lemma ChildrenStep(places: seq<Place>, i: nat, p: nat)
    requires i < |places|
    ensures Children(places, i + 1, p) == Children(places, i, p)
      + if places[i].UnderParent? && places[i].parent == p then [places[i].node] else []
  {
  }

  /** No two items have matching ids. */
  predicate UniqueIds(ids: seq<Value>) {
    forall i, j :: 0 <= i < |ids| && 0 <= j < |ids| && i != j ==> !SameKey(ids[i], ids[j])
  }

  /** Every place holds the node of its own item. */
  predicate OwnNodes(places: seq<Place>) {
    forall i :: 0 <= i < |places| ==> places[i].node == i
  }

  /** With unique ids every item's node is its own. */
  lemma UniqueIdsOwnNodes(items: seq<Value>, o: TreeOptions)
    requires UniqueIds(Ids(items, o.id))
    ensures OwnNodes(Places(items, o))
  {
    var ids := Ids(items, o.id);
    forall i | 0 <= i < |items|
      ensures Places(items, o)[i].node == i
    {
      PlaceAt(items, o, i);
      LastMatchSpec(ids, ids[i]);
    }
  }

  /** With every node its own item's, each of the first `n` items is placed
      among the roots when its place is a root, otherwise among the
      children of its parent and of no other node. Together with the
      ordering lemmas below (the lists are strictly increasing), each item
      is placed exactly once. */
  lemma {:induction false} RootsMembers(places: seq<Place>, n: nat, i: nat)
    requires OwnNodes(places) && n <= |places|
    ensures i in Roots(places, n) <==> i < n && places[i].AtRoot?
  {
    if n > 0 {
      RootsMembers(places, n - 1, i);
      RootsStep(places, n - 1);
      assert places[n - 1].node == n - 1;
    }
  }

  lemma {:induction false} ChildrenMembers(places: seq<Place>, n: nat, i: nat, p: nat)
    requires OwnNodes(places) && n <= |places|
    ensures i in Children(places, n, p) <==> i < n && places[i].UnderParent? && places[i].parent == p
  {
    if n > 0 {
      ChildrenMembers(places, n - 1, i, p);
      ChildrenStep(places, n - 1, p);
      assert places[n - 1].node == n - 1;
    }
  }

  /** With every node its own item's, the roots and each children list keep
      input order. */
  lemma {:induction false} RootsInOrder(places: seq<Place>, n: nat)
    requires OwnNodes(places) && n <= |places|
    ensures forall a, b :: 0 <= a < b < |Roots(places, n)| ==> Roots(places, n)[a] < Roots(places, n)[b]
    ensures forall a :: 0 <= a < |Roots(places, n)| ==> Roots(places, n)[a] < n
  {
    if n > 0 {
      RootsInOrder(places, n - 1);
    }
  }

  lemma {:induction false} ChildrenInOrder(places: seq<Place>, n: nat, p: nat)
    requires OwnNodes(places) && n <= |places|
    ensures forall a, b :: 0 <= a < b < |Children(places, n, p)| ==>
      Children(places, n, p)[a] < Children(places, n, p)[b]
    ensures forall a :: 0 <= a < |Children(places, n, p)| ==> Children(places, n, p)[a] < n
  {
    if n > 0 {
      ChildrenInOrder(places, n - 1, p);
    }
  }

  // ---------------------------------------------------------------------
  // treeToArray

  /** `rest` in `const {[childrenKey]: children, ...rest} = node`: the own
      properties of the node other than the children key. */
  function Rest(node: Value, key: string): (r: Value)
    ensures r.Obj? && key !in r.fields
    ensures r.fields.Keys == OwnEntries(node).Keys - {key}
    ensures forall k :: k in r.fields ==> r.fields[k] == OwnEntries(node)[k]
  {
    Obj(OwnEntries(node) - {key})
  }

  /** The records a traversal pushes for one node: its rest, then those of
      its children. */
  function Visit(node: Value, key: string): seq<Value>
    decreases node, 1
  {
    [Rest(node, key)] + Below(node, key)
  }

  /** The records of a node's children, when `node[childrenKey]` is an
      array. */
  function Below(node: Value, key: string): seq<Value>
    decreases node, 0
  {
    match node
    case Obj(fields) =>
      if key in fields && fields[key].Arr? then Preorder(fields[key].items, key) else []
    case Arr(items) =>
      var i := CanonicalIndex(key);
      if i.Some? && i.value < |items| && items[i.value].Arr? then Preorder(items[i.value].items, key) else []
    case _ => []
  }

  /** The records a traversal pushes for a list of nodes, in pre-order. */
  function Preorder(nodes: seq<Value>, key: string): seq<Value>
    decreases nodes, 2
  {
    if nodes == [] then [] else Preorder(nodes[..|nodes| - 1], key) + Visit(nodes[|nodes| - 1], key)
  }

  /** The children a traversal descends into are the node's property
      `childrenKey`, when that is an array. */
  lemma BelowChildren(node: Value, key: string)
    ensures Below(node, key) == if Property(node, key).Arr? then Preorder(Property(node, key).items, key) else []
  {
  }

  /** No node of the forest is null or undefined, which destructuring
      would reject. */
  predicate Destructurable(nodes: seq<Value>, key: string)
    decreases nodes
  {
    forall i :: 0 <= i < |nodes| ==> NodeDestructurable(nodes[i], key)
  }

  predicate NodeDestructurable(node: Value, key: string)
    decreases node
  {
    match node
    case Null => false
    case Undefined => false
    case Obj(fields) => key in fields && fields[key].Arr? ==> Destructurable(fields[key].items, key)
    case Arr(items) =>
      var i := CanonicalIndex(key);
      i.Some? && i.value < |items| && items[i.value].Arr? ==> Destructurable(items[i.value].items, key)
    case _ => true
  }

  lemma VisitSplit(start: seq<Value>, node: Value, key: string)
    ensures (start + [Rest(node, key)]) + Below(node, key) == start + Visit(node, key)
  {
  }

  /** The result array the recursive traversal pushes onto. */
  class Collector {
    var result: seq<Value>

    constructor()
      ensures result == []
    {
      result := [];
    }

    /** traverse(nodes): for each node, push its rest and traverse its
        children. */
    method Traverse(nodes: seq<Value>, key: string)
      requires Destructurable(nodes, key)
      modifies this
      ensures result == old(result) + Preorder(nodes, key)
      decreases nodes, 2
    {
      for i := 0 to |nodes|
        invariant result == old(result) + Preorder(nodes[..i], key)
      {
        assert nodes[..i + 1][..i] == nodes[..i];
        VisitNode(nodes[i], key);
      }
      assert nodes[..|nodes|] == nodes;
    }

    /** The body of the traversal for one node. */
    method VisitNode(node: Value, key: string)
      requires NodeDestructurable(node, key)
      modifies this
      ensures result == old(result) + Visit(node, key)
      decreases node, 1
    {
      VisitSplit(result, node, key);
      var rest := Rest(node, key);
      result := result + [rest];
      VisitChildren(node, key);
    }

    /** The traversal of a node's children, when they are an array. */
    method VisitChildren(node: Value, key: string)
      requires NodeDestructurable(node, key)
      modifies this
      ensures result == old(result) + Below(node, key)
      decreases node, 0
    {
      match node {
        case Obj(fields) =>
          if key in fields && fields[key].Arr? {
            Traverse(fields[key].items, key);
          }
        case Arr(items) =>
          var j := CanonicalIndex(key);
          if j.Some? && j.value < |items| && items[j.value].Arr? {
            Traverse(items[j.value].items, key);
          }
        case _ =>
      }
    }
  }

  /** treeToArray's default children key. */
  const DefaultChildrenKey := "children"

  /** treeToArray(tree, childrenKey): the pre-order list of the nodes, each
      without its children key. */
  method TreeToArray(tree: seq<Value>, key: string) returns (r: seq<Value>)
    requires Destructurable(tree, key)
    ensures r == Preorder(tree, key)
  {
    var collector := new Collector();
    collector.Traverse(tree, key);
    r := collector.result;
  }

  /** The number of nodes of a forest, following the children arrays. */
  function NodeCount(nodes: seq<Value>, key: string): nat
    decreases nodes
  {
    if nodes == [] then 0 else NodeCount(nodes[..|nodes| - 1], key) + SubtreeCount(nodes[|nodes| - 1], key)
  }

  function SubtreeCount(node: Value, key: string): nat
    decreases node
  {
    1 + match node
      case Obj(fields) =>
        if key in fields && fields[key].Arr? then NodeCount(fields[key].items, key) else 0
      case Arr(items) =>
        var i := CanonicalIndex(key);
        if i.Some? && i.value < |items| && items[i.value].Arr? then NodeCount(items[i.value].items, key) else 0
      case _ => 0
  }

  /** One record per node, none of which keeps the children key. */
  lemma {:induction false} PreorderRecords(nodes: seq<Value>, key: string)
    ensures |Preorder(nodes, key)| == NodeCount(nodes, key)
    ensures forall k :: 0 <= k < |Preorder(nodes, key)| ==>
      Preorder(nodes, key)[k].Obj? && key !in Preorder(nodes, key)[k].fields
    decreases nodes, 2
  {
    if nodes != [] {
      PreorderRecords(nodes[..|nodes| - 1], key);
      VisitRecords(nodes[|nodes| - 1], key);
    }
  }

  lemma {:induction false} VisitRecords(node: Value, key: string)
    ensures |Visit(node, key)| == SubtreeCount(node, key)
    ensures forall k :: 0 <= k < |Visit(node, key)| ==>
      Visit(node, key)[k].Obj? && key !in Visit(node, key)[k].fields
    decreases node, 1
  {
    BelowRecords(node, key);
  }

  lemma {:induction false} BelowRecords(node: Value, key: string)
    ensures |Below(node, key)| + 1 == SubtreeCount(node, key)
    ensures forall k :: 0 <= k < |Below(node, key)| ==>
      Below(node, key)[k].Obj? && key !in Below(node, key)[k].fields
    decreases node, 0
  {
    match node
    case Obj(fields) =>
      if key in fields && fields[key].Arr? {
        PreorderRecords(fields[key].items, key);
      }
    case Arr(items) =>
      var i := CanonicalIndex(key);
      if i.Some? && i.value < |items| && items[i.value].Arr? {
        PreorderRecords(items[i.value].items, key);
      }
    case _ =>
  }

}
