# ah-utils-js core, modelled in Dafny

This project models the five utility modules of ah-utils-js and proves what
they promise:

- **Decimal arithmetic** (`src/utils/math.ts`): `add`, `subtract`,
  `multiply`, `divide`, `sum`, `product`, `round` and `compare`. They run on
  a decimal engine configured for 20 significant digits with half-up
  rounding. A decimal is modelled as an integer coefficient times a power of
  ten (`Decimals`, `DecimalValues`).
- **Type inspection and deep equality** (`src/utils/base.ts`) over a closed
  JavaScript value type (`JsValues.Value`): undefined, null, booleans,
  finite numbers as decimals, NaN, strings, arrays, plain objects, dates,
  regular expressions and functions.
- **Array utilities** (`src/utils/array.ts`): `unique`, `flatten`, `group`,
  `intersection`, `union`, `except` and `range`, plus the conversions
  between flat records and trees (`arrayToTree`, `treeToArray`).
- **Object path access** (`src/utils/object.ts`): `deepClone`, `merge`,
  `get`, `set`, `remove`, `has`, `pick` and `omit`.
- **String transforms** (`src/utils/string.ts`): `camelCase`, `kebabCase`,
  `snakeCase`, `capitalize`, `escape`, `unescape` and `truncate`.

The source code is pure in `math.ts`, `base.ts` and `string.ts`, which
become functions and lemmas. Where the source updates state step by step,
the model does too:

- `group` and `range` push in loops. `arrayToTree` fills an array of child
  lists in place. `treeToArray` pushes onto the result held by a
  `Collector` object.
- `merge`, `pick` and `omit` fill a result map key by key.
- `set` and `remove` change an `ObjectRef` in place.

Each such method is proved against a specification function, and the
lemmas state what the source promises about that function.

Files:

| file | module |
|---|---|
| wrappers.dfy | `Wrappers`: Option and Result |
| ascii.dfy | `Ascii`: ASCII character classes, case mapping, decimal digit strings, canonical array indices |
| decimal.dfy | `Decimals`: decimals, 20-digit half-up rounding, exact and rounded operations, division, comparison, `toFixed`, the literal parser |
| decimal_value.dfy | `DecimalValues`: the value each decimal denotes, and error bounds for rounding, division and `toFixed` |
| values.dfy | `JsValues`: the value type, `typeof`, truthiness, `===`, `String()`, own entries and property reads |
| math.dfy | `MathUtils` |
| base.dfy | `BaseUtils` |
| array.dfy | `ArrayUtils` |
| object.dfy | `ObjectUtils` |
| string.dfy | `StringUtils` |

## Model

| member | source | states |
|---|---|---|
| Decimals.RoundSig | src/utils/math.ts:10 | a coefficient of at most 20 digits is kept; a longer one of k digits becomes 20 digits (10^20 after a carry) of the same sign, at the exponent raised by k − 20 |
| Decimals.RoundSigBound | src/utils/math.ts:10 | every rounded coefficient fits in 20 digits |
| Decimals.RoundSigCoefficient | src/utils/math.ts:10 | dropping the extra digits of a coefficient of 20 + s digits leaves between 10^19 and 10^20 |
| DecimalValues.RoundSigNear | src/utils/math.ts:10 | the result is the exact value rounded half-up to 20 significant digits: unchanged when it fits; otherwise 20 digits at the exponent that keeps the leading 20, within half a unit of the last kept digit, an exact half going away from zero |
| Decimals.DividedBy | src/utils/math.ts:100 | a zero dividend gives zero; otherwise the quotient has the sign of the operands' product and a 20-digit coefficient |
| DecimalValues.DividedByNear | src/utils/math.ts:100 | quotient times divisor is the dividend rounded half-up to a multiple of a divisor-unit, an exact half going away from zero, so the quotient is the half-up rounding of the true one |
| DecimalValues.ToFixedNear | src/utils/math.ts:27 | toFixed(d) yields a literal that parses back to the decimal rounded half-up to a multiple of 10^-d, an exact half going away from zero |
| DecimalValues.RenderParses | src/utils/math.ts:27 | the text toFixed writes for n·10^-d parses back to exactly that decimal |
| DecimalValues.CmpValue | src/utils/math.ts:191 | decimal comparison is the sign of the difference of the two values at a common scale |
| Decimals.Plus | src/utils/math.ts:44 | the exact sum rounded to 20 significant digits; stated by MathUtils.AddRounded |
| Decimals.Minus | src/utils/math.ts:61 | the exact difference rounded to 20 significant digits; stated by MathUtils.SubtractRounded |
| Decimals.Times | src/utils/math.ts:78 | the exact product rounded to 20 significant digits; stated by MathUtils.MultiplyRounded |
| Decimals.Cmp | src/utils/math.ts:191 | comparedTo; stated by DecimalValues.CmpValue and MathUtils.CompareSign |
| Decimals.IsInteger | src/utils/math.ts:172 | Number.isInteger on the digit count; used by MathUtils.Round, whose contract states the rejection |
| Decimals.ToFixed | src/utils/math.ts:27 | toFixed(d); stated by DecimalValues.ToFixedNear and MathUtils.FormatFixed |
| Decimals.ParseLiteral | src/utils/math.ts:16 | the decimal literals the constructor accepts from a string; stated by DecimalValues.RenderParses and MathUtils.LetterRejected |
| MathUtils.ValidNumberCases | src/utils/math.ts:13-21 | an operand is valid iff the modelled constructor accepts it; null, undefined, booleans and other objects never are; a string is valid iff it is a plain decimal literal (the other strings decimal.js accepts are listed under Left out) |
| MathUtils.FormatResult | src/utils/math.ts:24-28 | the result is a string iff a digit count is given |
| MathUtils.FormatFixed | src/utils/math.ts:24-28 | with a digit count d, the text has exactly d fraction digits and reads back as the decimal rounded half-up to d digits, an exact half going away from zero |
| MathUtils.Add | src/utils/math.ts:36-45 | fails with the invalid-operands TypeError iff an operand is invalid; otherwise the result is a string iff a digit count is given |
| MathUtils.Subtract | src/utils/math.ts:53-62 | same error and result-form contract as add |
| MathUtils.Multiply | src/utils/math.ts:70-79 | same error and result-form contract as add |
| MathUtils.Divide | src/utils/math.ts:87-101 | invalid operands fail first; then the division fails with "除数不能为0" iff the divisor is zero; result form as add |
| MathUtils.AddRounded | src/utils/math.ts:44 | the sum is the exact sum rounded half-up to 20 significant digits: the exact sum when it fits; otherwise 20 digits (10^20 after a carry) at the exponent keeping the leading 20, within half a unit of the last digit, an exact half going away from zero |
| MathUtils.SubtractRounded | src/utils/math.ts:61 | the difference is the exact difference rounded half-up to 20 significant digits: the exact difference when it fits; otherwise 20 digits (10^20 after a carry) at the exponent keeping the leading 20, within half a unit of the last digit, an exact half going away from zero |
| MathUtils.MultiplyRounded | src/utils/math.ts:78 | the product is the exact product rounded half-up to 20 significant digits: the exact product when it fits; otherwise 20 digits (10^20 after a carry) at the exponent keeping the leading 20, within half a unit of the last digit, an exact half going away from zero |
| MathUtils.DivideRounded | src/utils/math.ts:100 | quotient times divisor is the dividend rounded half-up to a multiple of a divisor-unit, ties away from zero; the quotient has 20 digits and the sign of the operands' product |
| MathUtils.FixedOfExact | src/utils/math.ts:24-28 | for each operation, the string result is toFixed of the decimal result |
| MathUtils.FirstInvalid | src/utils/math.ts:122-126 | finds the first invalid element: all before it are valid, and none is found iff all are valid |
| MathUtils.Values | src/utils/math.ts:128 | the decimals of a valid array, element by element |
| MathUtils.Sum | src/utils/math.ts:109-130 | an empty array gives 0 before any check; otherwise it fails iff some element is invalid, naming the first invalid index; result form as add |
| MathUtils.Product | src/utils/math.ts:138-159 | an empty array gives 1 before any check; otherwise the same validation as sum; result form as add |
| MathUtils.FoldPlusSnoc | src/utils/math.ts:128 | the fold adds the elements from left to right, rounding at every step |
| MathUtils.FoldTimesSnoc | src/utils/math.ts:157 | the fold multiplies the elements from left to right, rounding at every step |
| MathUtils.SumAppend | src/utils/math.ts:128 | the sum of an array with one more element is the rounded sum of the old sum and that element |
| MathUtils.ProductAppend | src/utils/math.ts:157 | the product of an array with one more element is the rounded product of the old product and that element |
| MathUtils.FoldFixedOfExact | src/utils/math.ts:128-129 | with a digit count, sum and product give toFixed of the decimal they give without one |
| MathUtils.Round | src/utils/math.ts:167-177 | an invalid number fails first; then it fails with the digit TypeError iff the digit count is negative or not an integer |
| MathUtils.RoundFixed | src/utils/math.ts:176 | with a valid number and a count d ≥ 0, the result is the half-up toFixed(d) text |
| MathUtils.Compare | src/utils/math.ts:187-192 | fails with the invalid-operands TypeError iff an operand is invalid; otherwise the result is -1, 0 or 1 |
| MathUtils.CompareSign | src/utils/math.ts:191 | the result is the sign of a − b |
| MathUtils.CompareReflexive | src/utils/math.ts:191 | compare(a, a) is 0 |
| MathUtils.CompareAntisymmetric | src/utils/math.ts:191 | swapping the operands negates the result |
| MathUtils.AddExample | src/utils/__tests__/math.test.ts:10-18 | add(0.1, 0.2) is exactly 0.3, and "0.30" with two digits |
| MathUtils.SumExample | src/utils/__tests__/math.test.ts:72-75 | sum([0.1, 0.2, 0.3]) is exactly 0.6 |
| MathUtils.ProductExample | src/utils/__tests__/math.test.ts:92-95 | product([0.1, 0.2, 0.3]) is exactly 0.006 |
| MathUtils.EmptySumExample | src/utils/__tests__/math.test.ts:81-84 | sum([], 2) is "0.00" |
| MathUtils.InvalidElementExample | src/utils/__tests__/math.test.ts:86-88 | sum([1, 2, 'invalid']) fails naming index 2 |
| MathUtils.LetterRejected | src/utils/math.ts:13-21 | a text that starts with a letter is not a decimal literal |
| MathUtils.RoundDownExample | src/utils/__tests__/math.test.ts:104 | round(1.2345, 2) is "1.23" |
| MathUtils.RoundUpExample | src/utils/__tests__/math.test.ts:105 | round(1.2355, 2) is "1.24" |
| MathUtils.RoundTieExample | src/utils/math.ts:176 | round(0.125, 2) is "0.13": an exact half rounds up |
| MathUtils.RoundNegativeTieExample | src/utils/math.ts:176 | round(-0.125, 2) is "-0.13": an exact half rounds away from zero |
| MathUtils.RoundRejectionExample | src/utils/__tests__/math.test.ts:109-112 | round(1.23, -1) and round(1.23, 1.5) fail with the digit TypeError |
| MathUtils.AddRejectionExample | src/utils/__tests__/math.test.ts:25-28 | add('hello', 1) and add(1, null) fail with the invalid-operands TypeError |
| MathUtils.DivideByZeroExample | src/utils/__tests__/math.test.ts:66-68 | divide(10, 0) fails with "除数不能为0" |
| MathUtils.CompareExample | src/utils/__tests__/math.test.ts:122-124 | compare(add(0.1, 0.2), 0.3) is 0 |
| BaseUtils.GetType | src/utils/base.ts:4-6 | the type name is lower case |
| BaseUtils.GetTypeTags | src/utils/base.ts:4-6 | two values have the same type name iff they are of the same class |
| BaseUtils.GetTypeNames | src/utils/base.ts:4-6 | the name is "array" exactly for arrays, "object" exactly for plain objects, "number" exactly for numbers and NaN |
| BaseUtils.IsType | src/utils/base.ts:9-11 | true iff the requested name, in any case, is "undefined", "null", "boolean", "number" (NaN included), "string", "array", "object" (plain objects), "date", "regexp" or "function" and the value is of that kind |
| BaseUtils.IsTypeCaseInsensitive | src/utils/base.ts:9-11 | the request is case-insensitive, and every value is of its own type |
| BaseUtils.IsArray | src/utils/base.ts:14-16 | Array.isArray holds exactly of the values getType names "array" |
| BaseUtils.IsObject | src/utils/base.ts:19-21 | true exactly for plain objects, so never for arrays or null |
| BaseUtils.IsFunction | src/utils/base.ts:24-26 | typeof is "function" exactly for functions |
| BaseUtils.IsString | src/utils/base.ts:29-31 | typeof is "string" exactly for strings |
| BaseUtils.IsNumber | src/utils/base.ts:34-36 | true exactly for numbers other than NaN, so never for numeric strings |
| BaseUtils.IsBoolean | src/utils/base.ts:39-41 | typeof is "boolean" exactly for booleans |
| BaseUtils.IsNull | src/utils/base.ts:44-46 | === null holds exactly of null |
| BaseUtils.IsUndefined | src/utils/base.ts:49-51 | === undefined holds exactly of undefined |
| BaseUtils.IsDate | src/utils/base.ts:54-56 | true exactly for dates |
| BaseUtils.IsRegExp | src/utils/base.ts:59-61 | true exactly for regular expressions |
| BaseUtils.GuardsExclusive | src/utils/base.ts:14-36 | isObject holds of no array and not of null; isNumber holds of no string |
| BaseUtils.IsEmpty | src/utils/base.ts:67-73 | true exactly for null, undefined, '', [] and {}; false for 0 and everything else |
| BaseUtils.IsEquals | src/utils/base.ts:76-109 | the comparison as written; its cases are stated by the IsEquals lemmas below |
| BaseUtils.IsEqualsNullish | src/utils/base.ts:77-78 | when either side is null or undefined, the values are equal iff they are the same |
| BaseUtils.IsEqualsSameType | src/utils/base.ts:80-82 | equal values have the same type name |
| BaseUtils.IsEqualsArrays | src/utils/base.ts:84-89 | arrays are equal iff they have the same length and are equal element by element |
| BaseUtils.IsEqualsObjects | src/utils/base.ts:91-98 | objects are equal iff they have as many own keys and each key of the first equals the same property of the second, undefined when missing |
| BaseUtils.IsEqualsDates | src/utils/base.ts:100-102 | dates are equal iff their timestamps are |
| BaseUtils.IsEqualsRegExps | src/utils/base.ts:104-106 | regular expressions are equal iff their texts are |
| BaseUtils.IsEqualsPrimitives | src/utils/base.ts:77-108 | a value that is not an array, object, date or regular expression is equal exactly to what it is === to; NaN and functions to nothing |
| BaseUtils.IsEqualsLengthExample | src/utils/__tests__/base.test.ts:115-119 | [1, 2] and [1, 2, 3] are not equal |
| BaseUtils.IsEqualsReflexive | src/utils/base.ts:76-109 | a value without NaN and without functions is equal to itself |
| BaseUtils.IsEqualsAsymmetric | src/utils/base.ts:91-98 | {x: undefined} equals {y: 1}, but {y: 1} does not equal {x: undefined} |
| BaseUtils.IsEqualsFixedSymmetric | src/utils/base.ts:91-98 | the corrected comparison is symmetric |
| BaseUtils.IsEqualsFixedAgrees | src/utils/base.ts:76-109 | whatever the corrected comparison accepts, the written one accepts too |
| ArrayUtils.Unique | src/utils/array.ts:8 | no duplicates, the same members as the input, and no longer than it |
| ArrayUtils.UniqueOrder | src/utils/array.ts:8 | elements keep the order of their first occurrences |
| ArrayUtils.UniqueOfDistinct | src/utils/array.ts:8 | an array without duplicates is returned unchanged |
| ArrayUtils.UniqueIdempotent | src/utils/array.ts:8 | applying unique twice is applying it once |
| JsValues.NormalizeCanonical | src/utils/array.ts:8 | every number has a canonical form, and a canonical number is its own |
| JsValues.CanonicalUnique | src/utils/array.ts:8 | two canonical numbers of the same value are the same decimal |
| ArrayUtils.SameKeyEquality | src/utils/array.ts:8 | on primitives with canonical numbers, SameValueZero (what a Set uses) is value equality |
| ArrayUtils.UniqueSameValueZero | src/utils/array.ts:8 | on such elements unique keeps one element per SameValueZero class: no two kept ones are SameValueZero, and every element has a match kept |
| ArrayUtils.IntersectionSameValueZero | src/utils/array.ts:35-47 | on such elements an element is kept by intersection iff some element of the second array is SameValueZero to it, and by except iff none is |
| ArrayUtils.Intersection | src/utils/array.ts:35-38 | arr1 filtered by membership in arr2; stated by IntersectionExceptMembers and IntersectionAppend |
| ArrayUtils.Except | src/utils/array.ts:44-47 | arr1 filtered by non-membership in arr2; stated by IntersectionExceptMembers and ExceptAppend |
| ArrayUtils.Union | src/utils/array.ts:41 | unique of the concatenation; stated by UnionMembers |
| ArrayUtils.IntersectionExceptPartition | src/utils/array.ts:35-47 | intersection and except together hold every element of the first array exactly as often as it does |
| ArrayUtils.IntersectionExceptMembers | src/utils/array.ts:35-47 | an element is in the intersection iff it is in both arrays, and in the difference iff it is in the first only |
| ArrayUtils.IntersectionAppend | src/utils/array.ts:35-38 | intersection filters element by element, so it keeps the input order |
| ArrayUtils.ExceptAppend | src/utils/array.ts:44-47 | except filters element by element, so it keeps the input order |
| ArrayUtils.Concat | src/utils/array.ts:41 | every element comes from some array, and every element of every array is in the result |
| ArrayUtils.UnionMembers | src/utils/array.ts:41 | the union has no duplicates, and its members are exactly those of the arrays |
| ArrayUtils.Flatten | src/utils/array.ts:11-16 | the left fold of concat as written; stated by FlattenDepth and FlattenLeaves |
| ArrayUtils.FlattenDepth | src/utils/array.ts:11-16 | flattening with depth d lowers the nesting depth by exactly d (one when d ≤ 1), or to zero when it is smaller |
| ArrayUtils.PieceDepth | src/utils/array.ts:13 | one element, flattened and spread, has its depth lowered by exactly the same amount |
| ArrayUtils.FlattenLeaves | src/utils/array.ts:11-16 | flattening keeps every non-array value, in order |
| ArrayUtils.PieceLeaves | src/utils/array.ts:13 | one element, flattened and spread, keeps its non-array values in order |
| ArrayUtils.MaxDepthAppend | src/utils/array.ts:12-15 | the depth of a concatenation is the larger depth |
| ArrayUtils.LeavesAppend | src/utils/array.ts:12-15 | the leaves of a concatenation are the leaves of each part |
| ArrayUtils.Group | src/utils/array.ts:19-32 | the keys are exactly the items' String(item[key]) values, and each bucket is the items with that key in input order |
| ArrayUtils.BucketCount | src/utils/array.ts:25-27 | each item is in the bucket of its own key as often as in the input, and in no other bucket |
| ArrayUtils.GroupKeysCover | src/utils/array.ts:25 | every item's key is a group key |
| ArrayUtils.GroupKeysWitnessed | src/utils/array.ts:26 | every group key is some item's key |
| ArrayUtils.GroupedStep | src/utils/array.ts:24-28 | one reducer step keeps the grouping correct for the items seen so far |
| ArrayUtils.BucketAppend | src/utils/array.ts:27 | a new item is appended to its own bucket only |
| ArrayUtils.Range | src/utils/array.ts:65-76 | with no end, range(n) is the range from 0 to n; otherwise the progression from start to end |
| ArrayUtils.RangeSeqShape | src/utils/array.ts:72-74 | element k is start + k·step and below end; the next step would reach end; empty when start ≥ end |
| ArrayUtils.LastMatchSpec | src/utils/array.ts:89-96 | map.get finds the last item with a matching id, and nothing iff no item matches |
| ArrayUtils.PlaceOf | src/utils/array.ts:98-103 | a node goes to the roots iff its parent id is rootParentId or names no node; otherwise under a known node |
| ArrayUtils.ArrayToTree | src/utils/array.ts:79-107 | a new array with a child list per item; the roots and each child list are those the placement of every item, in input order, produces |
| ArrayUtils.CreateNodes | src/utils/array.ts:88-91 | every node starts with an empty child list, and the ids are read from the items |
| ArrayUtils.PlaceNodes | src/utils/array.ts:93-104 | after the second pass, the roots and child lists are those of all placements |
| ArrayUtils.PlaceNode | src/utils/array.ts:95-103 | placing one item appends it to the roots or to its parent's child list |
| ArrayUtils.UniqueIdsOwnNodes | src/utils/array.ts:89-95 | with unique ids, each item is placed as its own node |
| ArrayUtils.RootsMembers | src/utils/array.ts:98-99 | with unique ids, a node is a root iff its placement says so |
| ArrayUtils.ChildrenMembers | src/utils/array.ts:100-103 | with unique ids, a node is in p's child list iff it is placed under p |
| ArrayUtils.RootsInOrder | src/utils/array.ts:94-99 | the roots are in input order, each at most once |
| ArrayUtils.ChildrenInOrder | src/utils/array.ts:94-103 | each child list is in input order, each node at most once |
| ArrayUtils.Rest | src/utils/array.ts:118 | the record is a plain object holding exactly the node's own keys other than the children key, with the node's values |
| ArrayUtils.Collector.constructor | src/utils/array.ts:114 | the result starts empty |
| ArrayUtils.Collector.Traverse | src/utils/array.ts:116-124 | traverse appends the pre-order records of the nodes to the result |
| ArrayUtils.Collector.VisitNode | src/utils/array.ts:117-123 | one node appends its own record, then its subtree's |
| ArrayUtils.Collector.VisitChildren | src/utils/array.ts:120-122 | the children's records are appended when the children are an array |
| ArrayUtils.TreeToArray | src/utils/array.ts:110-128 | the result is the pre-order list of records |
| ArrayUtils.Preorder | src/utils/array.ts:116-124 | the records in traversal order; stated by PreorderRecords and TreeToArray |
| ArrayUtils.PreorderRecords | src/utils/array.ts:110-128 | as many records as nodes in the forest, each a plain object without the children key |
| ArrayUtils.VisitRecords | src/utils/array.ts:117-122 | a node yields one record per node of its subtree |
| ArrayUtils.BelowRecords | src/utils/array.ts:120-122 | the children yield one record per node below the node |
| ObjectUtils.DeepCloneEqual | src/utils/object.ts:8-21 | the clone equals the original: primitives as they are, dates by timestamp, regular expressions by source and flags, arrays and own keys recursively |
| ObjectUtils.DeepClone | src/utils/object.ts:8-21 | the clone as written; stated by DeepCloneEqual |
| ObjectUtils.MergeIntoEmpty | src/utils/object.ts:24-43 | merging one value into {} gives its copy |
| ObjectUtils.CombineFresh | src/utils/object.ts:31-37 | a key not yet in the result takes a copy of the value |
| ObjectUtils.MergeIntoEmptyArray | src/utils/object.ts:28-37 | merging an array into {} gives its index entries, copied |
| ObjectUtils.MergeInKeys | src/utils/object.ts:28 | after merging a value, the keys are the old ones plus the value's own keys |
| ObjectUtils.MergeInEntries | src/utils/object.ts:28-38 | each own key of the value is combined with the old entry, and other keys keep theirs |
| ObjectUtils.MergeInArray | src/utils/object.ts:28-38 | an array's elements are combined under their index keys |
| ObjectUtils.MergeInString | src/utils/object.ts:28-38 | a string's characters overwrite the entries at their index keys |
| ObjectUtils.StringEntriesKept | src/utils/object.ts:36-37 | a character replaces the old entry wholesale |
| ObjectUtils.CombineFlat | src/utils/object.ts:36-37 | arrays and primitives replace the old value wholesale |
| ObjectUtils.MergeAllKeys | src/utils/object.ts:24-43 | the merged keys are the union of the objects' own keys |
| ObjectUtils.MergeAll | src/utils/object.ts:24-43 | the objects folded into {} from left to right; stated by MergeAllKeys, MergeOverride and MergeKeeps |
| ObjectUtils.MergeOverride | src/utils/object.ts:27-38 | a key of the last object is combined from the earlier result and that object's value |
| ObjectUtils.MergeKeeps | src/utils/object.ts:27-38 | a key the last object lacks keeps the value of the earlier objects |
| ObjectUtils.MergeLosesDate | src/utils/object.ts:31-35 | a date value is merged as an object with no keys, so it becomes {} |
| ObjectUtils.MergeKeepsNonPlain | src/utils/object.ts:31 | when only plain objects descend, the last object's value replaces any other |
| ObjectUtils.Merge | src/utils/object.ts:24-43 | the method computes the recursive merge of the objects |
| ObjectUtils.MergeObject | src/utils/object.ts:28-39 | the inner loop writes every entry of one object |
| ObjectUtils.WrittenStep | src/utils/object.ts:28-39 | writing one more key combines it and leaves the rest |
| ObjectUtils.MergeStep | src/utils/object.ts:28-39 | writing all own keys of an object merges it |
| ObjectUtils.MergeStepString | src/utils/object.ts:28-39 | writing all characters of a string merges it |
| ObjectUtils.MergeStepEntries | src/utils/object.ts:28-39 | writing all own entries of an array or object merges it |
| ObjectUtils.SplitDots | src/utils/object.ts:47 | path.split('.') gives at least one part, and no part has a dot |
| ObjectUtils.SplitJoin | src/utils/object.ts:47 | joining the parts with dots gives the path back |
| ObjectUtils.JoinSplit | src/utils/object.ts:47 | splitting dot-free parts joined with dots gives the parts back |
| ObjectUtils.PathKeys | src/utils/object.ts:47 | a dotted path has at least one key |
| ObjectUtils.Walk | src/utils/object.ts:50-55 | the value reached key by key, or none when a step starts at null or undefined; stated by HasWalks and WalkAfterSet |
| ObjectUtils.PathValue | src/utils/object.ts:46-58 | what get returns; stated by Get and GetAfterSet |
| ObjectUtils.Get | src/utils/object.ts:46-58 | the default when a step reaches null or undefined or the final value is undefined; otherwise the value at the path |
| ObjectUtils.Has | src/utils/object.ts:94-106 | true iff every step finds its key in a truthy object |
| ObjectUtils.HasPath | src/utils/object.ts:94-106 | every step finds its key in an object; stated by Has and RemoveThenHasNot |
| ObjectUtils.HasWalks | src/utils/object.ts:94-106 | a path that has every key can be read to its end |
| ObjectUtils.SetKey | src/utils/object.ts:73 | a write leaves an object or an array |
| ObjectUtils.SetPath | src/utils/object.ts:61-75 | a set path leaves an object or an array |
| ObjectUtils.PropertyAfterSetKey | src/utils/object.ts:73 | the key written reads back as the value |
| ObjectUtils.WalkAfterSet | src/utils/object.ts:61-75 | after set, walking the path reaches the value written |
| ObjectUtils.GetAfterSet | src/utils/object.ts:46-75 | get after set gives the value, or the default when the value is undefined |
| ObjectUtils.SetFrame | src/utils/object.ts:61-75 | at the top level, set changes only the entry of the first key |
| ObjectUtils.SetKeyFrame | src/utils/object.ts:73 | a write that does not append to an array leaves the read of every other key unchanged |
| ObjectUtils.SetLeavesOtherPaths | src/utils/object.ts:61-75 | when every step is already an object and no write appends, every path that leaves the written path reads as before, at any depth |
| ObjectUtils.DeleteKey | src/utils/object.ts:90 | delete of one key; stated by RemoveFrame and RemoveThenHasNot |
| ObjectUtils.RemovePath | src/utils/object.ts:78-91 | what remove does to the object; stated by RemoveFrame, RemoveThenHasNot and ObjectRef.Remove |
| ObjectUtils.RemoveThenHasNot | src/utils/object.ts:78-106 | after a remove that got past the intermediates, has is false for the path |
| ObjectUtils.RemoveFrame | src/utils/object.ts:78-91 | at the top level, remove changes only the entry of the first key |
| ObjectUtils.RemoveLeavesOtherPaths | src/utils/object.ts:78-91 | every path that leaves the removed path reads as before, at any depth: only the last key is deleted |
| ObjectUtils.ObjectRef.constructor | src/utils/object.ts:61 | the reference holds the given object |
| ObjectUtils.ObjectRef.Set | src/utils/object.ts:61-75 | the object becomes the set path's result |
| ObjectUtils.ObjectRef.Remove | src/utils/object.ts:78-91 | false and nothing changed when an intermediate is not an object; otherwise true and the last key deleted |
| ObjectUtils.Pick | src/utils/object.ts:109-115 | exactly the listed keys present in the object, with their values |
| ObjectUtils.Omit | src/utils/object.ts:118-122 | the object without the listed keys; the object itself is a value and stays as it is |
| ObjectUtils.PickOmitSplit | src/utils/object.ts:109-122 | pick and omit share no key and together give the whole object |
| JsValues.Property | src/utils/object.ts:54 | reading a plain object's key gives its entry, or undefined when absent |
| JsValues.OwnEntriesRead | src/utils/object.ts:28-29 | every own entry is what reading its key gives |
| JsValues.StrictEqualsSymmetric | src/utils/base.ts:77 | === is symmetric |
| StringUtils.CamelCase | src/utils/string.ts:2-4 | the result is no longer than the input |
| StringUtils.CamelCaseSkips | src/utils/string.ts:2-4 | text without separators passes through unchanged |
| StringUtils.CamelCaseIdentity | src/utils/string.ts:2-4 | text without separators is its own camelCase |
| StringUtils.CamelCaseOfWord | src/utils/string.ts:3 | a separator then a word becomes the capitalized word |
| StringUtils.CamelCaseOfJoined | src/utils/string.ts:2-4 | lower-case words joined by a separator become the first word followed by the others capitalized |
| StringUtils.Capitalize | src/utils/string.ts:23-25 | same length; only the first character is upper-cased; '' stays '' |
| StringUtils.CapitalizeProperties | src/utils/string.ts:23-25 | capitalize is idempotent and changes nothing but case |
| StringUtils.Mark | src/utils/string.ts:9 | each upper-case letter gets a separator before it, so the text grows |
| StringUtils.Delimit | src/utils/string.ts:7-20 | the shared kebab/snake pipeline; the result has no upper-case ASCII letter |
| StringUtils.MarkAppend | src/utils/string.ts:9 | marking upper-case letters works character by character |
| StringUtils.DropLeading | src/utils/string.ts:11 | at most one leading separator is dropped |
| StringUtils.KebabCase | src/utils/string.ts:7-12 | the result has no upper-case ASCII letter |
| StringUtils.SnakeCase | src/utils/string.ts:15-20 | the result has no upper-case ASCII letter |
| StringUtils.DelimitIdentity | src/utils/string.ts:7-20 | text without upper-case letters and without a leading separator is unchanged |
| StringUtils.DelimitOfCamel | src/utils/string.ts:2-20 | kebab/snake case undoes camelCase of lower-case words |
| StringUtils.KebabCamelRoundTrip | src/utils/string.ts:2-12 | kebabCase(camelCase(w1-w2-…)) gives w1-w2-… back |
| StringUtils.SnakeCamelRoundTrip | src/utils/string.ts:2-20 | snakeCase(camelCase(w1_w2_…)) gives w1_w2_… back |
| StringUtils.EscapeChar | src/utils/string.ts:55-62 | each special character becomes an entity starting with '&'; others stay |
| StringUtils.Escape | src/utils/string.ts:54-63 | the escaped text is no shorter |
| StringUtils.EscapeNoMarkup | src/utils/string.ts:54-63 | the escaped text holds none of < > " ' |
| StringUtils.EscapeIdentity | src/utils/string.ts:54-63 | text without special characters is unchanged |
| StringUtils.Unescape | src/utils/string.ts:66-75 | the unescaped text is no longer |
| StringUtils.UnescapeFront | src/utils/string.ts:67-74 | the entity of a character unescapes to that character |
| StringUtils.UnescapeEscape | src/utils/string.ts:54-75 | unescape(escape(s)) is s |
| StringUtils.SliceEnd | src/utils/string.ts:79 | the slice end lies within the string |
| StringUtils.Truncate | src/utils/string.ts:78-80 | the text as written; stated by TruncateShape and TruncateNegative |
| StringUtils.TruncateShape | src/utils/string.ts:78-80 | a text that fits is unchanged; a longer one keeps its first length characters, then the ellipsis |
| StringUtils.TruncateNegative | src/utils/string.ts:79 | a negative length drops that many characters from the end |
| Ascii.Lower | src/utils/string.ts:10 | toLowerCase maps each ASCII character |
| Ascii.CanonicalIndex | src/utils/object.ts:54 | a key is an array index iff it is some number's canonical decimal text |

## Left out

- Conversion of results to IEEE doubles (`toNumber`, math.ts:26) is not modelled. Without a digit count the result is the exact rounded decimal. `arraySum` and `mean` are left out for the same reason.
- `sample`, `randomString`, `uuid` and `randomHexColor` are left out: they depend on randomness.
- MathUtils.ValidNumberCases: the decimal constructor accepts only plain decimal literals here: a sign, digits, an optional point and an optional exponent. The source also accepts the strings "NaN", "Infinity" and hex, binary or octal literals such as "0x10", and the numbers NaN and ±Infinity; the model classifies all of these as invalid, so `Add` and the other operations report the invalid-operands TypeError where the source computes a result (add("0x10", 1) is 17 and add(NaN, 1) is NaN there). A JavaScript number enters as the decimal its literal denotes.
- The library checks the digit argument of `toFixed` itself. That check is not modelled: the digit count is a `nat`.
- The sign of a negative value that rounds to zero in `toFixed` is not modelled.
- Case mapping, `\w` and `\s` are ASCII only. Unicode case mapping and Unicode white space are not modelled.
- `String()` of numbers uses plain positional notation: the exponent form JavaScript uses for very large or small numbers is not modelled. Dates and functions are written by a stand-in text.
- Reference identity is not modelled. Arrays, objects, dates, regular expressions and functions are never `===` to each other. So `isEquals(a, a)` on one array or object that holds NaN or a function is true in the source (base.ts:77 tests `a === b` first) and false in the model.
- ArrayUtils.Unique, ArrayUtils.Intersection, ArrayUtils.Except and ArrayUtils.Union: compare elements by value equality. That is SameValueZero, the equality a `Set` uses, only for primitives whose numbers are written canonically (`SameKeyEquality`); a number written with trailing zeros (1 as 1.0) is a different element to them, and two distinct arrays or objects with equal contents are one element to them but two to a `Set`.
- Property order of objects is not modelled: an object is a map from keys to values.
- Prototype chains and non-enumerable properties are not modelled: `in`, `has`, `get` and `pick` see own enumerable properties, and the indices and length of arrays and strings. So `has({r: /a/}, "r.lastIndex")` is true in the source and false here, and `get` of a function's `name` or `length` gives the default here.
- BaseUtils.IsEquals, ArrayUtils.Group and ObjectUtils.Get: the source reads `b[key]`, `acc[groupKey]` and `result[key]`, which also find inherited properties such as `constructor` or `toString`. The model reads own properties only, so it differs on such keys: group over an item whose key is "constructor" throws in the source (it pushes onto a function), and get of "a.constructor" returns a function there.
- ObjectUtils.ObjectRef.Set and ObjectUtils.ObjectRef.Remove: `keys.pop()` (object.ts:63, 80) also removes the last key from an array path the caller passed in. The model takes the path as a value and does not change it.
- `delete` of a non-configurable property is not modelled, apart from array elements and `length`: `RemovePath` gives None for those.
- Cyclic inputs are not modelled: values are finite trees.
- ObjectUtils.ObjectRef.Set: requires a non-empty path, and a path whose writes land in plain objects, array indices up to the length, or `{}` created on the way. Writes into dates, regular expressions, named array keys or past the end of an array are not modelled.
- ObjectUtils.ObjectRef.Remove: requires a non-empty path, and a delete that is not of an array element or array length.
- ArrayUtils.ArrayToTree: the tree is index-based: a list of root indices and a child list per item. Nested node objects are not built. Node conservation is stated by `RootsMembers` and `ChildrenMembers` together with the ordering lemmas, not by running `TreeToArray` on the result.
- ArrayUtils.ArrayToTree: duplicate ids are modelled (the last one wins), but the conservation lemmas require unique ids.
- ArrayUtils.ArrayToTree and ArrayUtils.Group: require items that are not null or undefined, since the source reads properties of each item.
- ArrayUtils.TreeToArray, ArrayUtils.Collector.Traverse, ArrayUtils.Collector.VisitNode and ArrayUtils.Collector.VisitChildren: require that no node the traversal reaches is null or undefined (`Destructurable`), at the top level or inside a children array. Destructuring such a node (array.ts:118) throws a TypeError in the source, e.g. treeToArray([{id: 1, children: [null]}]); the model does not take these forests as input and does not model the error.
- ObjectUtils.Merge: requires no null or undefined among the objects, since `Object.keys` throws on them.
- ObjectUtils.Pick and ObjectUtils.Omit: take the object as a map of its own keys.
- StringUtils.Truncate: fractional lengths are not modelled; the length is an integer. Lengths count Unicode scalar values, where the source counts UTF-16 code units, so truncation can differ on text outside the Basic Multilingual Plane (the source may split a surrogate pair).
- StringUtils.Capitalize: works on the first Unicode scalar value, where `charAt(0)` takes the first UTF-16 code unit; the two differ on text starting outside the Basic Multilingual Plane.
- ArrayUtils.Range: requires a positive integer step, and takes integer start and end. Fractional steps, starts and ends (range(0.5, 2) is [0.5, 1.5] in the source) are not modelled, and non-positive steps loop forever in the source when start < end.
- ArrayUtils.Flatten: takes an integer depth. A fractional depth (flatten(a, 1.5) recurses once, since array.ts:13 tests `depth > 1`) is not modelled.
- The check in `sum` and `product` that the argument is an array (math.ts:113-115, 142-144) is not modelled: the argument is always a sequence here.
- The default arguments are named constants that callers pass explicitly: `StringUtils.DefaultEllipsis` ("...", string.ts:78), `ArrayUtils.DefaultDepth` (1, array.ts:11), `ArrayUtils.DefaultChildrenKey` ("children", array.ts:112) and `ArrayUtils.DefaultTreeOptions`.
- `Decimal.set` (math.ts:10) is a fixed configuration: 20 significant digits, rounding half-up.
- The decimal library's exponent limits (maxE and minE, ±9e15) are not modelled: exponents are unbounded, so a literal such as "1e9000000000000001" is a finite decimal here where the source gives Infinity (and underflows to zero below minE).

## Findings

| source | as written | input that shows it | evidently intended | confidence | as-written member | corrected member |
|---|---|---|---|---|---|---|
| src/utils/base.ts:91-98 | objects are compared on the keys of `a` only, and a key missing from `b` reads as undefined, so isEquals is not symmetric | isEquals({x: undefined}, {y: 1}) is true; isEquals({y: 1}, {x: undefined}) is false | objects with the same keys and equal values, a symmetric relation | not executed | BaseUtils.IsEqualsAsymmetric | BaseUtils.IsEqualsFixedSymmetric |
| src/utils/object.ts:31 | every truthy non-array object value descends, including dates and regular expressions, whose own keys are none | merge({d: new Date(0)}) gives {d: {}} | only plain objects are merged recursively; other objects are copied as they are | not executed | ObjectUtils.MergeLosesDate | ObjectUtils.MergeKeepsNonPlain |
