/**
 * The sparse typed array of the ants language (array.cpp).
 *
 * An array declared as `array [int, string] of float` has the index-type
 * vector ['i', 's'] and the element datatype "f".  It holds an ordered list
 * of elements; each element carries one index value per index type and one
 * value of the element datatype.  Elements come into existence on first
 * access (`Array::getElement` with `create`), so the list is a dictionary
 * kept as a list whose keys are compared with the type-aware rule of
 * `ArrayElement::checkIndexes`.
 *
 * Values are the storage cells of the language: a `ValuePointer` pairs a
 * type code with a pointer, and the model pairs them in one datatype whose
 * constructor is the type code.  A nested array is a value too (the source
 * owns it through the element's pointer).
 */
module Arrays {
  import opened Encoding

  datatype Value =
    | IntV(i: int)
    | FloatV(f: real)
    | StrV(s: string)
    | BoolV(b: bool)
    | ArrV(a: ArrayValue)
      /** A `ValuePointer` with an empty datatype and a NULL pointer. */
    | NoValue

  datatype ArrayElement = ArrayElement(indexes: seq<Value>, value: Value)

  datatype ArrayValue = ArrayValue(indexTypes: seq<char>, elementType: string, elements: seq<ArrayElement>)

  /** First character of a value's datatype string; '\0' for the empty string. */
  function TypeChar(v: Value): char
  {
    match v
    case IntV(_) => 'i'
    case FloatV(_) => 'f'
    case StrV(_) => 's'
    case BoolV(_) => 'b'
    case ArrV(_) => 'a'
    case NoValue => '\0'
  }

  /** First character of a C++ string, which is '\0' when the string is empty. */
  function Head(s: string): char
  {
    if |s| == 0 then '\0' else s[0]
  }

  // ---------------------------------------------------------------------
  // ValuePointer ==, != and += (array.cpp:43-98)
  // ---------------------------------------------------------------------

  /** `ValuePointer::operator==`: equal type codes and equal contents. */
  function ValueEq(a: Value, b: Value): bool
    decreases a
  {
    match (a, b)
    case (IntV(x), IntV(y)) => x == y
    case (FloatV(x), FloatV(y)) => x == y
    case (BoolV(x), BoolV(y)) => x == y
    case (StrV(x), StrV(y)) => x == y
    case (ArrV(x), ArrV(y)) => ArrayEq(x, y)
    case _ => false
  }

  /** `ValuePointer::operator!=`, written out separately as in the source. */
  function ValueNe(a: Value, b: Value): bool
    decreases a
  {
    match (a, b)
    case (IntV(x), IntV(y)) => x != y
    case (FloatV(x), FloatV(y)) => x != y
    case (BoolV(x), BoolV(y)) => x != y
    case (StrV(x), StrV(y)) => x != y
    case (ArrV(x), ArrV(y)) => ArrayNe(x, y)
    case _ => true
  }

  /**
   * `ValuePointer::operator+=`: integers add (wrapping at 64 bits), floats
   * add, booleans are or-ed, strings are appended, arrays merge; any other
   * pair of type codes leaves the target unchanged.
   */
  function ValueAdd(t: Value, s: Value): (r: Value)
    decreases s
    ensures TypeChar(r) == TypeChar(t)
    ensures TypeChar(t) != TypeChar(s) ==> r == t
  {
    match (t, s)
    case (IntV(x), IntV(y)) => IntV(Wrap64(x + y))
    case (FloatV(x), FloatV(y)) => FloatV(x + y)
    case (BoolV(x), BoolV(y)) => BoolV(x || y)
    case (StrV(x), StrV(y)) => StrV(x + y)
    case (ArrV(x), ArrV(y)) => ArrV(Merge(x, y))
    case _ => t
  }

  // ---------------------------------------------------------------------
  // Index matching (ArrayElement::checkIndexes, array.cpp:330-361)
  // ---------------------------------------------------------------------

  /**
   * One index slot: a stored slot matches a searched slot of the same type
   * with an equal value, and a stored float slot also matches a searched
   * integer of the same numeric value.
   */
  predicate SlotMatch(stored: Value, search: Value)
  {
    match (stored, search)
    case (IntV(x), IntV(y)) => x == y
    case (FloatV(x), IntV(y)) => x == y as real
    case (FloatV(x), FloatV(y)) => x == y
    case (BoolV(x), BoolV(y)) => x == y
    case (StrV(x), StrV(y)) => x == y
    case _ => false
  }

  /**
   * Every stored slot matches the searched slot at the same position.  A
   * search vector shorter than the stored one never matches (the source
   * reads past its end).
   */
  predicate IndexesMatch(stored: seq<Value>, search: seq<Value>)
  {
    |stored| <= |search| && forall k :: 0 <= k < |stored| ==> SlotMatch(stored[k], search[k])
  }

  /** `checkIndexes`: the loop with early return over the stored slots. */
  method CheckIndexes(stored: seq<Value>, search: seq<Value>) returns (r: bool)
    ensures r == IndexesMatch(stored, search)
  {
    var i := 0;
    while i < |stored|
      invariant 0 <= i <= |stored| && i <= |search|
      invariant forall k :: 0 <= k < i ==> SlotMatch(stored[k], search[k])
    {
      if i >= |search| || !SlotMatch(stored[i], search[i]) {
        return false;
      }
      i := i + 1;
    }
    return true;
  }

  /** The position of the first element at or after `from` whose indexes match `key`. */
  function FindFrom(es: seq<ArrayElement>, key: seq<Value>, from: nat): (r: Option<nat>)
    requires from <= |es|
    decreases |es| - from
    ensures r.Some? ==> from <= r.value < |es| && IndexesMatch(es[r.value].indexes, key)
    ensures r.Some? ==> forall j :: from <= j < r.value ==> !IndexesMatch(es[j].indexes, key)
    ensures r.None? ==> forall j :: from <= j < |es| ==> !IndexesMatch(es[j].indexes, key)
  {
    if from == |es| then None
    else if IndexesMatch(es[from].indexes, key) then Some(from)
    else FindFrom(es, key, from + 1)
  }

  function FindFirst(es: seq<ArrayElement>, key: seq<Value>): Option<nat>
  {
    FindFrom(es, key, 0)
  }

  // ---------------------------------------------------------------------
  // Element creation (Array::getElement, array.cpp:565-628)
  // ---------------------------------------------------------------------

  /**
   * `addIndex` for one index type: the searched value converted to the
   * declared index type; a character outside i/f/b/s adds no index.
   */
  function MakeIndex(t: char, v: Value): Option<Value>
  {
    match t
    case 'i' => Some(IntV(if v.IntV? then v.i else 0))
    case 'f' => Some(FloatV(if v.FloatV? then v.f else if v.IntV? then v.i as real else 0.0))
    case 'b' => Some(BoolV(v.BoolV? && v.b))
    case 's' => Some(StrV(if v.StrV? then v.s else ""))
    case _ => None
  }

  function MakeIndexes(types: seq<char>, key: seq<Value>): seq<Value>
    requires |key| >= |types|
  {
    if |types| == 0 then []
    else
      var rest := MakeIndexes(types[1..], key[1..]);
      match MakeIndex(types[0], key[0])
      case Some(x) => [x] + rest
      case None => rest
  }

  /**
   * Scan of a nested array type string ("a [i,s] f"): starting at offset 3,
   * the non-comma characters up to ']' are the index types, and the element
   * type starts two characters after the ']'.  Without a ']' the element
   * type starts at the end of the string.
   */
  function ScanIndexTypes(t: string, i: nat): (r: (seq<char>, nat))
    requires i <= |t|
    decreases |t| - i
  {
    if i == |t| then ([], i)
    else if t[i] == ']' then ([], i + 2)
    else
      var rest := ScanIndexTypes(t, i + 1);
      if t[i] == ',' then rest else ([t[i]] + rest.0, rest.1)
  }

  /** The index types and element type encoded in an array type string. */
  function ArrayTypeParts(t: string): (seq<char>, string)
  {
    if |t| < 3 then ([], "")
    else
      var (idx, start) := ScanIndexTypes(t, 3);
      (idx, if start <= |t| then t[start..] else "")
  }

  /** The empty array an array type string declares. */
  function EmptyArrayOf(t: string): ArrayValue
  {
    var (idx, et) := ArrayTypeParts(t);
    ArrayValue(idx, et, [])
  }

  /** The value a newly created element holds, chosen by the element type's first character. */
  function DefaultValue(elementType: string): (r: Value)
    ensures Head(elementType) in "ifsba" ==> TypeChar(r) == Head(elementType)
    ensures Head(elementType) !in "ifsba" ==> r == NoValue
  {
    match Head(elementType)
    case 'i' => IntV(0)
    case 'f' => FloatV(0.0)
    case 'b' => BoolV(true)
    case 's' => StrV("")
    case 'a' => ArrV(EmptyArrayOf(elementType))
    case _ => NoValue
  }

  function NewElement(a: ArrayValue, key: seq<Value>): ArrayElement
    requires |key| >= |a.indexTypes|
  {
    ArrayElement(MakeIndexes(a.indexTypes, key), DefaultValue(a.elementType))
  }

  /**
   * `Array::getElement(indexes, create)`: the array afterwards and the
   * position of the element found or created (NULL is `None`).
   */
  function Locate(a: ArrayValue, key: seq<Value>, create: bool): (r: (ArrayValue, Option<nat>))
    ensures r.0.indexTypes == a.indexTypes && r.0.elementType == a.elementType
    ensures |a.elements| <= |r.0.elements| <= |a.elements| + 1
    ensures r.0.elements[..|a.elements|] == a.elements
    ensures r.1.Some? ==> r.1.value < |r.0.elements|
    ensures r.1.None? || r.1.value < |a.elements| ==> r.0 == a
    ensures !create ==> r.0 == a
    ensures FindFirst(a.elements, key).Some? ==> r.1 == FindFirst(a.elements, key)
  {
    match FindFirst(a.elements, key)
    case Some(i) => (a, Some(i))
    case None =>
      if !create || |key| < |a.indexTypes| then (a, None)
      else (a.(elements := a.elements + [NewElement(a, key)]), Some(|a.elements|))
  }

  // ---------------------------------------------------------------------
  // Datatype strings and compatibility (array.cpp:641-667)
  // ---------------------------------------------------------------------

  /** The index types separated by commas. */
  function JoinTypes(ts: seq<char>): (r: string)
    ensures |ts| == 0 ==> r == []
    ensures |ts| > 0 ==> |r| == 2 * |ts| - 1
  {
    if |ts| == 0 then []
    else if |ts| == 1 then [ts[0]]
    else [ts[0], ','] + JoinTypes(ts[1..])
  }

  /** The datatype string of an array, "a [" + index types + "] " + element type. */
  function DatatypeString(a: ArrayValue): string
  {
    "a [" + JoinTypes(a.indexTypes) + "] " + a.elementType
  }

  /**
   * `getDatatypeString` as written: `(first ? "" : ",") + indx_type` adds a
   * char to a string literal's address, so what is appended is whatever
   * C string lies at that address.  `mem(first, c)` stands for that memory.
   */
  function DatatypeStringAsWritten(a: ArrayValue, mem: (bool, char) -> string): string
  {
    "a [" + GarbageJoin(a.indexTypes, true, mem) + "] " + a.elementType
  }

  function GarbageJoin(ts: seq<char>, first: bool, mem: (bool, char) -> string): string
  {
    if |ts| == 0 then [] else mem(first, ts[0]) + GarbageJoin(ts[1..], false, mem)
  }

  /**
   * `areArraysCompatible`: equal lengths, and wherever the strings differ
   * the first has 'f' and the second 'i' (an int may flow into a float).
   */
  predicate Compatible(d1: string, d2: string)
  {
    |d1| == |d2| && forall i :: 0 <= i < |d1| && d1[i] != d2[i] ==> d1[i] == 'f' && d2[i] == 'i'
  }

  // ---------------------------------------------------------------------
  // Array ==, != (array.cpp:470-508)
  // ---------------------------------------------------------------------

  /**
   * `Array::operator==`: the same number of elements, and every element of
   * `x` has an index-matching element in `y` whose value is not unequal.
   */
  function ArrayEq(x: ArrayValue, y: ArrayValue): bool
    decreases x
  {
    |x.elements| == |y.elements| &&
    forall i :: 0 <= i < |x.elements| ==> ElementFoundEqual(x.elements[i], y)
  }

  function ElementFoundEqual(e: ArrayElement, y: ArrayValue): bool
    decreases e
  {
    match FindFirst(y.elements, e.indexes)
    case None => false
    case Some(j) => !ValueNe(e.value, y.elements[j].value)
  }

  /** `Array::operator!=`, the same loop with the opposite verdicts. */
  function ArrayNe(x: ArrayValue, y: ArrayValue): bool
    decreases x
  {
    |x.elements| != |y.elements| ||
    exists i :: 0 <= i < |x.elements| && !ElementFoundEqual(x.elements[i], y)
  }

  // ---------------------------------------------------------------------
  // Array += and + (array.cpp:510-532)
  // ---------------------------------------------------------------------

  /** One step of `+=`: look up or create the element of `e`'s indexes and add `e`'s value to it. */
  function MergeElement(acc: ArrayValue, e: ArrayElement): (r: ArrayValue)
    decreases e
    ensures r.indexTypes == acc.indexTypes && r.elementType == acc.elementType
  {
    var (a1, p) := Locate(acc, e.indexes, true);
    match p
    case None => a1
    case Some(k) => a1.(elements := a1.elements[k := a1.elements[k].(value := ValueAdd(a1.elements[k].value, e.value))])
  }

  function MergeFrom(acc: ArrayValue, y: ArrayValue, k: nat): (r: ArrayValue)
    requires k <= |y.elements|
    decreases y, |y.elements| - k
    ensures r.indexTypes == acc.indexTypes && r.elementType == acc.elementType
  {
    if k == |y.elements| then acc
    else MergeFrom(MergeElement(acc, y.elements[k]), y, k + 1)
  }

  /** `Array::operator+=`; a no-op when the datatype strings are incompatible. */
  function Merge(x: ArrayValue, y: ArrayValue): (r: ArrayValue)
    decreases y, |y.elements| + 1
    ensures r.indexTypes == x.indexTypes && r.elementType == x.elementType
  {
    if Compatible(DatatypeString(x), DatatypeString(y)) then MergeFrom(x, y, 0) else x
  }

  /** `b` has `a`'s types, and `a`'s elements at the same positions with the same indexes. */
  predicate SameShape(a: ArrayValue, b: ArrayValue)
  {
    b.indexTypes == a.indexTypes && b.elementType == a.elementType
    && |a.elements| <= |b.elements|
    && forall i :: 0 <= i < |a.elements| ==> b.elements[i].indexes == a.elements[i].indexes
  }

  // ---------------------------------------------------------------------
  // Well-formed arrays and the properties of lookup
  // ---------------------------------------------------------------------

  /** Index types that `addIndex` knows: int, float, boolean, string. */
  predicate SimpleTypes(ts: seq<char>)
  {
    forall k :: 0 <= k < |ts| ==> ts[k] in "ifbs"
  }

  /** Each slot's value has the declared index type. */
  predicate Typed(ts: seq<char>, idx: seq<Value>)
  {
    |idx| == |ts| && forall k :: 0 <= k < |ts| ==> TypeChar(idx[k]) == ts[k]
  }

  /** A searched value suits a slot of type `t`: the same type, or an int for a float slot. */
  predicate Fits(t: char, v: Value)
  {
    (t == 'i' && v.IntV?) || (t == 'f' && (v.FloatV? || v.IntV?)) || (t == 'b' && v.BoolV?) || (t == 's' && v.StrV?)
  }

  predicate KeyFits(ts: seq<char>, key: seq<Value>)
  {
    |key| >= |ts| && forall k :: 0 <= k < |ts| ==> Fits(ts[k], key[k])
  }

  /** No element's key matches an earlier element's key. */
  predicate KeysDistinct(es: seq<ArrayElement>)
  {
    forall i, j :: 0 <= i < j < |es| ==> !IndexesMatch(es[i].indexes, es[j].indexes)
  }

  /** The invariant `getElement` keeps: typed keys and no duplicate keys. */
  predicate WellFormed(a: ArrayValue)
  {
    SimpleTypes(a.indexTypes)
    && (forall i :: 0 <= i < |a.elements| ==> Typed(a.indexTypes, a.elements[i].indexes))
    && KeysDistinct(a.elements)
  }

  lemma {:induction false} MakeIndexesAt(ts: seq<char>, key: seq<Value>, k: nat)
    requires SimpleTypes(ts) && |key| >= |ts| && k < |ts|
    ensures |MakeIndexes(ts, key)| == |ts|
    ensures MakeIndex(ts[k], key[k]).Some? && MakeIndexes(ts, key)[k] == MakeIndex(ts[k], key[k]).value
  {
    MakeIndexesLength(ts, key);
    if k > 0 {
      assert SimpleTypes(ts[1..]) by {
        forall j | 0 <= j < |ts[1..]| ensures ts[1..][j] in "ifbs" { assert ts[1..][j] == ts[j + 1]; }
      }
      MakeIndexesAt(ts[1..], key[1..], k - 1);
    }
  }

  lemma {:induction false} MakeIndexesLength(ts: seq<char>, key: seq<Value>)
    requires SimpleTypes(ts) && |key| >= |ts|
    ensures |MakeIndexes(ts, key)| == |ts|
  {
    if |ts| > 0 {
      assert SimpleTypes(ts[1..]) by {
        forall j | 0 <= j < |ts[1..]| ensures ts[1..][j] in "ifbs" { assert ts[1..][j] == ts[j + 1]; }
      }
      MakeIndexesLength(ts[1..], key[1..]);
    }
  }

  /** A created element's indexes are typed by the index types. */
  lemma MakeIndexesTyped(ts: seq<char>, key: seq<Value>)
    requires SimpleTypes(ts) && |key| >= |ts|
    ensures Typed(ts, MakeIndexes(ts, key))
  {
    MakeIndexesLength(ts, key);
    forall k | 0 <= k < |ts| ensures TypeChar(MakeIndexes(ts, key)[k]) == ts[k] {
      MakeIndexesAt(ts, key, k);
    }
  }

  /** A created element's indexes match the key it was created for. */
  lemma MadeIndexesMatchKey(ts: seq<char>, key: seq<Value>)
    requires SimpleTypes(ts) && KeyFits(ts, key)
    ensures IndexesMatch(MakeIndexes(ts, key), key)
  {
    MakeIndexesLength(ts, key);
    forall k | 0 <= k < |ts| ensures SlotMatch(MakeIndexes(ts, key)[k], key[k]) {
      MakeIndexesAt(ts, key, k);
    }
  }

  /** Against typed stored indexes, a created key matches exactly when the searched key does. */
  lemma MatchMadeIsMatchKey(ts: seq<char>, stored: seq<Value>, key: seq<Value>)
    requires SimpleTypes(ts) && Typed(ts, stored) && KeyFits(ts, key)
    ensures IndexesMatch(stored, MakeIndexes(ts, key)) == IndexesMatch(stored, key)
  {
    MakeIndexesLength(ts, key);
    forall k | 0 <= k < |ts|
      ensures SlotMatch(stored[k], MakeIndexes(ts, key)[k]) == SlotMatch(stored[k], key[k])
    {
      MakeIndexesAt(ts, key, k);
    }
  }

  /** `getElement` keeps an array well formed. */
  lemma LocatePreservesWellFormed(a: ArrayValue, key: seq<Value>, create: bool)
    requires WellFormed(a) && KeyFits(a.indexTypes, key)
    ensures WellFormed(Locate(a, key, create).0)
  {
    var r := Locate(a, key, create).0;
    if r != a {
      var ts := a.indexTypes;
      var ne := NewElement(a, key);
      assert r.elements == a.elements + [ne];
      MakeIndexesTyped(ts, key);
      forall i | 0 <= i < |a.elements| ensures !IndexesMatch(a.elements[i].indexes, ne.indexes) {
        MatchMadeIsMatchKey(ts, a.elements[i].indexes, key);
      }
    }
  }

  /**
   * Lookup with `create` is idempotent: the first call finds or creates the
   * element, and a second call finds that same element and adds nothing.
   */
  lemma LocateIdempotent(a: ArrayValue, key: seq<Value>)
    requires WellFormed(a) && KeyFits(a.indexTypes, key)
    ensures Locate(a, key, true).1.Some?
    ensures Locate(Locate(a, key, true).0, key, true) == Locate(a, key, true)
  {
    var (a1, p1) := Locate(a, key, true);
    if FindFirst(a.elements, key).None? {
      MadeIndexesMatchKey(a.indexTypes, key);
      assert a1.elements[|a.elements|] == NewElement(a, key);
      assert forall j :: 0 <= j < |a.elements| ==> a1.elements[j] == a.elements[j];
    }
  }

  /** A second lookup of a key that was just created finds the position returned for it. */
  lemma LocateFindsCreated(a: ArrayValue, key: seq<Value>)
    requires WellFormed(a) && KeyFits(a.indexTypes, key)
    ensures var (a1, p1) := Locate(a, key, true);
      p1.Some? && FindFirst(a1.elements, key) == p1 && IndexesMatch(a1.elements[p1.value].indexes, key)
  {
    LocateIdempotent(a, key);
  }

  // ---------------------------------------------------------------------
  // Properties of == and !=
  // ---------------------------------------------------------------------

  /** `!=` is the negation of `==` on values. */
  lemma NeIsNotEq(a: Value, b: Value)
    ensures ValueNe(a, b) == !ValueEq(a, b)
  {
  }

  /** A well-formed value all the way down. */
  predicate DeepValue(v: Value)
    decreases v
  {
    v != NoValue && (v.ArrV? ==> DeepArray(v.a))
  }

  predicate DeepArray(a: ArrayValue)
    decreases a
  {
    WellFormed(a) && forall i :: 0 <= i < |a.elements| ==> DeepValue(a.elements[i].value)
  }

  lemma SlotMatchReflexive(ts: seq<char>, idx: seq<Value>)
    requires SimpleTypes(ts) && Typed(ts, idx)
    ensures IndexesMatch(idx, idx)
  {
    forall k | 0 <= k < |idx| ensures SlotMatch(idx[k], idx[k]) {
      assert TypeChar(idx[k]) == ts[k];
    }
  }

  /** Every well-formed value equals itself under `ValuePointer::operator==`. */
  lemma {:induction false} ValueEqReflexive(v: Value)
    requires DeepValue(v)
    ensures ValueEq(v, v)
    decreases v
  {
    if v.ArrV? {
      ArrayEqReflexive(v.a);
    }
  }

  lemma {:induction false} ArrayEqReflexive(a: ArrayValue)
    requires DeepArray(a)
    ensures ArrayEq(a, a)
    decreases a
  {
    forall i | 0 <= i < |a.elements| ensures ElementFoundEqual(a.elements[i], a) {
      var e := a.elements[i];
      SlotMatchReflexive(a.indexTypes, e.indexes);
      var f := FindFirst(a.elements, e.indexes);
      assert f == Some(i);
      ValueEqReflexive(e.value);
      NeIsNotEq(e.value, e.value);
    }
  }

  // ---------------------------------------------------------------------
  // Properties of datatype strings and compatibility
  // ---------------------------------------------------------------------

  lemma CompatibleReflexive(d: string)
    ensures Compatible(d, d)
  {
  }

  lemma CompatibleTransitive(d1: string, d2: string, d3: string)
    requires Compatible(d1, d2) && Compatible(d2, d3)
    ensures Compatible(d1, d3)
  {
  }

  lemma CompatibleAntisymmetric(d1: string, d2: string)
    requires Compatible(d1, d2) && Compatible(d2, d1)
    ensures d1 == d2
  {
    assert forall i :: 0 <= i < |d1| ==> d1[i] == d2[i];
  }

  lemma {:induction false} JoinTypesAt(ts: seq<char>, k: nat)
    requires k < |JoinTypes(ts)|
    ensures k % 2 == 0 ==> JoinTypes(ts)[k] == ts[k / 2]
    ensures k % 2 == 1 ==> JoinTypes(ts)[k] == ','
  {
    if |ts| > 1 && k >= 2 {
      JoinTypesAt(ts[1..], k - 2);
      assert JoinTypes(ts)[k] == JoinTypes(ts[1..])[k - 2];
    }
  }

  /** The comma-separated simple index types contain no ']'. */
  lemma JoinTypesNoBracket(ts: seq<char>)
    ensures SimpleTypes(ts) ==> forall k :: 0 <= k < |JoinTypes(ts)| ==> JoinTypes(ts)[k] != ']'
  {
    if SimpleTypes(ts) {
      forall k | 0 <= k < |JoinTypes(ts)| ensures JoinTypes(ts)[k] != ']' {
        JoinTypesAt(ts, k);
      }
    }
  }

  /** In a datatype string the first ']' follows the joined index types. */
  lemma BracketPosition(a: ArrayValue)
    ensures var s := DatatypeString(a); var j := JoinTypes(a.indexTypes);
      s[3 + |j|] == ']'
      && (SimpleTypes(a.indexTypes) ==> forall k :: 3 <= k < 3 + |j| ==> s[k] != ']')
  {
    var s := DatatypeString(a);
    var j := JoinTypes(a.indexTypes);
    JoinTypesNoBracket(a.indexTypes);
    assert forall k :: 3 <= k < 3 + |j| ==> s[k] == j[k - 3];
  }

  /** The k-th index type sits at offset 3 + 2k of the datatype string. */
  lemma DatatypeStringTypeAt(a: ArrayValue, k: nat)
    requires k < |a.indexTypes|
    ensures 3 + 2 * k < |DatatypeString(a)| && DatatypeString(a)[3 + 2 * k] == a.indexTypes[k]
  {
    var j := JoinTypes(a.indexTypes);
    JoinTypesAt(a.indexTypes, 2 * k);
    assert DatatypeString(a) == "a [" + (j + "] " + a.elementType);
    assert ("a [" + (j + "] " + a.elementType))[3 + 2 * k] == j[2 * k];
  }

  /**
   * Compatible datatype strings of two arrays with simple index types have
   * the same number of index types, and each pair is equal or float/int.
   */
  lemma CompatibleIndexArity(x: ArrayValue, y: ArrayValue)
    requires SimpleTypes(x.indexTypes) && SimpleTypes(y.indexTypes)
    requires Compatible(DatatypeString(x), DatatypeString(y))
    ensures |x.indexTypes| == |y.indexTypes|
    ensures forall k :: 0 <= k < |x.indexTypes| ==>
      x.indexTypes[k] == y.indexTypes[k] || (x.indexTypes[k] == 'f' && y.indexTypes[k] == 'i')
  {
    var s1, s2 := DatatypeString(x), DatatypeString(y);
    var j1, j2 := JoinTypes(x.indexTypes), JoinTypes(y.indexTypes);
    BracketPosition(x);
    BracketPosition(y);
    assert |j1| == |j2|;
    forall k | 0 <= k < |x.indexTypes|
      ensures x.indexTypes[k] == y.indexTypes[k] || (x.indexTypes[k] == 'f' && y.indexTypes[k] == 'i')
    {
      DatatypeStringTypeAt(x, k);
      DatatypeStringTypeAt(y, k);
    }
  }

  lemma {:induction false} ScanOverJoin(p: string, ts: seq<char>, q: string)
    requires SimpleTypes(ts) && |ts| > 0 && |q| > 0 && q[0] == ']'
    ensures ScanIndexTypes(p + JoinTypes(ts) + q, |p|) == (ts, |p| + |JoinTypes(ts)| + 2)
    decreases |ts|
  {
    var t := p + JoinTypes(ts) + q;
    JoinTypesAt(ts, 0);
    assert t[|p|] == ts[0] && ts[0] in "ifbs";
    if |ts| == 1 {
      assert JoinTypes(ts) == [ts[0]];
      assert t[|p| + 1] == ']';
      assert ScanIndexTypes(t, |p| + 1) == ([], |p| + 3);
      assert ts == [ts[0]];
      assert t[|p|] != ']' && t[|p|] != ',';
      assert ScanIndexTypes(t, |p|) == ([t[|p|]] + ScanIndexTypes(t, |p| + 1).0, ScanIndexTypes(t, |p| + 1).1);
      assert [t[|p|]] + ScanIndexTypes(t, |p| + 1).0 == [ts[0]];
      assert ScanIndexTypes(t, |p|) == ([ts[0]], |p| + 3);
      assert ScanIndexTypes(t, |p|) == (ts, |p| + |JoinTypes(ts)| + 2);
    } else {
      assert SimpleTypes(ts[1..]) by {
        forall j | 0 <= j < |ts[1..]| ensures ts[1..][j] in "ifbs" { assert ts[1..][j] == ts[j + 1]; }
      }
      var p2 := p + [ts[0], ','];
      assert t == p2 + JoinTypes(ts[1..]) + q;
      assert t[|p| + 1] == ',';
      ScanOverJoin(p2, ts[1..], q);
      assert [ts[0]] + ts[1..] == ts;
    }
  }

  /** Decoding a datatype string gives back the array's index types and element type. */
  lemma ArrayTypePartsRoundTrip(a: ArrayValue)
    requires SimpleTypes(a.indexTypes)
    ensures ArrayTypeParts(DatatypeString(a)) == (a.indexTypes, a.elementType)
  {
    var t := DatatypeString(a);
    var j := JoinTypes(a.indexTypes);
    if |a.indexTypes| == 0 {
      assert t[3] == ']';
      assert t[5..] == a.elementType;
    } else {
      assert t == "a [" + j + ("] " + a.elementType);
      ScanOverJoin("a [", a.indexTypes, "] " + a.elementType);
      assert t[3 + |j| + 2..] == a.elementType;
    }
  }

  /**
   * The datatype string as written breaks the float-from-int widening: with
   * memory that holds a one-character string past the literal for 'f' and an
   * empty one for 'i', `array [float] of float` and `array [int] of float`
   * come out with different lengths, although their true strings are
   * compatible.
   */
  lemma DatatypeStringAsWrittenRejectsWidening()
    ensures var mem := (first: bool, c: char) => if c == 'f' then "?" else "";
      var x := ArrayValue(['f'], "f", []);
      var y := ArrayValue(['i'], "f", []);
      Compatible(DatatypeString(x), DatatypeString(y))
      && !Compatible(DatatypeStringAsWritten(x, mem), DatatypeStringAsWritten(y, mem))
  {
    var mem := (first: bool, c: char) => if c == 'f' then "?" else "";
    var x := ArrayValue(['f'], "f", []);
    var y := ArrayValue(['i'], "f", []);
    assert DatatypeString(x) == "a [f] f" && DatatypeString(y) == "a [i] f";
    assert GarbageJoin(x.indexTypes, true, mem) == "?";
    assert GarbageJoin(y.indexTypes, true, mem) == "";
  }

  // ---------------------------------------------------------------------
  // Properties of +=
  // ---------------------------------------------------------------------

  /** Index types of two compatible well-formed arrays let every key of the second fit the first. */
  lemma CompatibleKeysFit(x: ArrayValue, y: ArrayValue)
    requires WellFormed(x) && WellFormed(y)
    requires Compatible(DatatypeString(x), DatatypeString(y))
    ensures forall k :: 0 <= k < |y.elements| ==> KeyFits(x.indexTypes, y.elements[k].indexes)
  {
    CompatibleIndexArity(x, y);
    forall k | 0 <= k < |y.elements| ensures KeyFits(x.indexTypes, y.elements[k].indexes) {
      var key := y.elements[k].indexes;
      assert Typed(y.indexTypes, key);
      forall m | 0 <= m < |x.indexTypes| ensures Fits(x.indexTypes[m], key[m]) {
        assert TypeChar(key[m]) == y.indexTypes[m];
      }
    }
  }

  /** A key that is found stays found after a merge step. */
  lemma FoundAfterMergeElement(acc: ArrayValue, e: ArrayElement, key: seq<Value>)
    requires FindFirst(acc.elements, key).Some?
    ensures FindFirst(MergeElement(acc, e).elements, key).Some?
  {
    var r := MergeElement(acc, e);
    var p := FindFirst(acc.elements, key).value;
    MergeElementShape(acc, e);
    assert r.elements[p].indexes == acc.elements[p].indexes;
  }

  /** One merge step keeps the array well formed and leaves the merged key found. */
  lemma MergeElementStep(acc: ArrayValue, e: ArrayElement)
    requires WellFormed(acc) && KeyFits(acc.indexTypes, e.indexes)
    ensures WellFormed(MergeElement(acc, e))
    ensures FindFirst(MergeElement(acc, e).elements, e.indexes).Some?
  {
    var next := MergeElement(acc, e);
    var (a1, p1) := Locate(acc, e.indexes, true);
    LocatePreservesWellFormed(acc, e.indexes, true);
    LocateFindsCreated(acc, e.indexes);
    assert forall i :: 0 <= i < |next.elements| ==> next.elements[i].indexes == a1.elements[i].indexes;
    assert next.elements[p1.value].indexes == a1.elements[p1.value].indexes;
  }

  /** Keys of `y` before position `k` that are found stay found after a merge step. */
  lemma FoundAfterMergeElementAll(acc: ArrayValue, e: ArrayElement, y: ArrayValue, k: nat)
    requires k <= |y.elements|
    requires forall j :: 0 <= j < k ==> FindFirst(acc.elements, y.elements[j].indexes).Some?
    ensures forall j :: 0 <= j < k ==> FindFirst(MergeElement(acc, e).elements, y.elements[j].indexes).Some?
  {
    forall j | 0 <= j < k ensures FindFirst(MergeElement(acc, e).elements, y.elements[j].indexes).Some? {
      FoundAfterMergeElement(acc, e, y.elements[j].indexes);
    }
  }

  /** Merging the k-th element of `y` keeps the invariant of `MergeFromCovers` for k + 1. */
  lemma MergeFromStep(acc: ArrayValue, y: ArrayValue, k: nat)
    requires k < |y.elements|
    requires WellFormed(acc)
    requires KeyFits(acc.indexTypes, y.elements[k].indexes)
    requires forall j :: 0 <= j < k ==> FindFirst(acc.elements, y.elements[j].indexes).Some?
    ensures WellFormed(MergeElement(acc, y.elements[k]))
    ensures forall j :: 0 <= j < k + 1 ==> FindFirst(MergeElement(acc, y.elements[k]).elements, y.elements[j].indexes).Some?
  {
    var e := y.elements[k];
    MergeElementStep(acc, e);
    FoundAfterMergeElementAll(acc, e, y, k);
  }

  lemma {:induction false} MergeFromCovers(acc: ArrayValue, y: ArrayValue, k: nat)
    requires k <= |y.elements|
    requires WellFormed(acc)
    requires forall j :: 0 <= j < |y.elements| ==> KeyFits(acc.indexTypes, y.elements[j].indexes)
    requires forall j :: 0 <= j < k ==> FindFirst(acc.elements, y.elements[j].indexes).Some?
    ensures WellFormed(MergeFrom(acc, y, k))
    ensures forall j :: 0 <= j < |y.elements| ==> FindFirst(MergeFrom(acc, y, k).elements, y.elements[j].indexes).Some?
    decreases |y.elements| - k
  {
    if k < |y.elements| {
      var next := MergeElement(acc, y.elements[k]);
      MergeFromStep(acc, y, k);
      MergeFromCovers(next, y, k + 1);
      assert MergeFrom(acc, y, k) == MergeFrom(next, y, k + 1);
    }
  }

  /**
   * After `x += y` on compatible well-formed arrays, `x` is still well
   * formed and holds an element for every key of `y`.
   */
  lemma MergeCoversOther(x: ArrayValue, y: ArrayValue)
    requires WellFormed(x) && WellFormed(y)
    requires Compatible(DatatypeString(x), DatatypeString(y))
    ensures WellFormed(Merge(x, y))
    ensures forall j :: 0 <= j < |y.elements| ==> FindFirst(Merge(x, y).elements, y.elements[j].indexes).Some?
  {
    CompatibleKeysFit(x, y);
    MergeFromCovers(x, y, 0);
  }

  /** A merge step keeps every existing element at its position with its indexes. */
  lemma MergeElementShape(acc: ArrayValue, e: ArrayElement)
    ensures SameShape(acc, MergeElement(acc, e))
  {
    var r := MergeElement(acc, e);
    var a1 := Locate(acc, e.indexes, true).0;
    assert |r.elements| == |a1.elements|;
    forall i | 0 <= i < |acc.elements| ensures r.elements[i].indexes == acc.elements[i].indexes {
      assert r.elements[i].indexes == a1.elements[i].indexes;
      assert a1.elements[..|acc.elements|][i] == a1.elements[i];
    }
  }

  lemma {:induction false} MergeFromShape(acc: ArrayValue, y: ArrayValue, k: nat)
    requires k <= |y.elements|
    ensures SameShape(acc, MergeFrom(acc, y, k))
    decreases |y.elements| - k
  {
    if k < |y.elements| {
      var next := MergeElement(acc, y.elements[k]);
      MergeElementShape(acc, y.elements[k]);
      MergeFromShape(next, y, k + 1);
      SameShapeTransitive(acc, next, MergeFrom(next, y, k + 1));
    }
  }

  lemma SameShapeTransitive(a: ArrayValue, b: ArrayValue, c: ArrayValue)
    requires SameShape(a, b) && SameShape(b, c)
    ensures SameShape(a, c)
  {
    forall i | 0 <= i < |a.elements| ensures c.elements[i].indexes == a.elements[i].indexes {
      assert c.elements[i].indexes == b.elements[i].indexes;
    }
  }

  /**
   * `x += y` keeps the index and element types, and every existing element
   * keeps its position and its indexes: only values change, and new
   * elements are added at the end.
   */
  lemma MergeShape(x: ArrayValue, y: ArrayValue)
    ensures SameShape(x, Merge(x, y))
  {
    if Compatible(DatatypeString(x), DatatypeString(y)) {
      MergeFromShape(x, y, 0);
    }
  }

  /** `+=` between arrays whose datatype strings are incompatible changes nothing. */
  lemma MergeIncompatibleIsNoop(x: ArrayValue, y: ArrayValue)
    requires !Compatible(DatatypeString(x), DatatypeString(y))
    ensures Merge(x, y) == x
  {
  }

  // ---------------------------------------------------------------------
  // Element values after += (array.cpp:523-532)
  // ---------------------------------------------------------------------

  /**
   * The value `x += y` leaves under the key of `e`: `e`'s value added to the
   * value of `x`'s element with that key, or to the default value of the
   * element `getElement` creates when `x` has none.
   */
  function MergedValue(x: ArrayValue, e: ArrayElement): Value
  {
    match FindFirst(x.elements, e.indexes)
    case Some(p) => ValueAdd(x.elements[p].value, e.value)
    case None => ValueAdd(DefaultValue(x.elementType), e.value)
  }

  /** `m` finds the key of `e` and holds there the value `x += e` gives it. */
  predicate HoldsMerged(m: ArrayValue, x: ArrayValue, e: ArrayElement)
  {
    var p := FindFirst(m.elements, e.indexes);
    p.Some? && m.elements[p.value].value == MergedValue(x, e)
  }

  /** `m` finds the key of `e` where `x` does, and would add `e` to the same value. */
  predicate Pending(m: ArrayValue, x: ArrayValue, e: ArrayElement)
  {
    FindFirst(m.elements, e.indexes) == FindFirst(x.elements, e.indexes) && MergedValue(m, e) == MergedValue(x, e)
  }

  /** No key of `y` matches the stored indexes `idx`. */
  predicate Unmatched(idx: seq<Value>, y: ArrayValue)
  {
    forall j :: 0 <= j < |y.elements| ==> !IndexesMatch(idx, y.elements[j].indexes)
  }

  /** What holds of `acc` once the first `k` elements of `y` are merged into `x`. */
  predicate MergeValuesInv(x: ArrayValue, y: ArrayValue, acc: ArrayValue, k: nat)
  {
    k <= |y.elements| && WellFormed(acc) && SameShape(x, acc)
    && (forall j :: 0 <= j < k ==> HoldsMerged(acc, x, y.elements[j]))
    && (forall j :: k <= j < |y.elements| ==> Pending(acc, x, y.elements[j]))
    && (forall i :: 0 <= i < |x.elements| && Unmatched(x.elements[i].indexes, y) ==> acc.elements[i] == x.elements[i])
  }

  /**
   * Lookup reads nothing but the indexes: a sequence with the same indexes
   * finds the same position, provided the elements it has beyond the end do
   * not match when nothing was found.
   */
  lemma {:induction false} FindFromExtended(a: seq<ArrayElement>, b: seq<ArrayElement>, key: seq<Value>, from: nat)
    requires from <= |a| <= |b|
    requires forall i :: from <= i < |a| ==> b[i].indexes == a[i].indexes
    requires FindFrom(a, key, from).Some? || forall i :: |a| <= i < |b| ==> !IndexesMatch(b[i].indexes, key)
    ensures FindFrom(b, key, from) == FindFrom(a, key, from)
    decreases |a| - from
  {
    if from < |a| && !IndexesMatch(a[from].indexes, key) {
      FindFromExtended(a, b, key, from + 1);
    }
  }

  /** Stored indexes that match two keys of the same types match one key only. */
  lemma MatchedKeysEqual(ts: seq<char>, s: seq<Value>, a: seq<Value>, b: seq<Value>)
    requires Typed(ts, a) && Typed(ts, b) && |s| == |ts|
    ensures IndexesMatch(s, a) && IndexesMatch(s, b) ==> a == b
  {
    if IndexesMatch(s, a) && IndexesMatch(s, b) {
      forall k | 0 <= k < |ts| ensures a[k] == b[k] {
        assert SlotMatch(s[k], a[k]) && SlotMatch(s[k], b[k]);
        assert TypeChar(a[k]) == TypeChar(b[k]);
      }
    }
  }

  /** Indexes of the right length never match two different keys of a well-formed array. */
  lemma MatchesOneKey(y: ArrayValue, s: seq<Value>, j: nat, k: nat)
    requires WellFormed(y) && |s| == |y.indexTypes|
    requires j < |y.elements| && k < |y.elements| && j != k
    requires IndexesMatch(s, y.elements[j].indexes)
    ensures !IndexesMatch(s, y.elements[k].indexes)
  {
    var a, b := y.elements[j].indexes, y.elements[k].indexes;
    SlotMatchReflexive(y.indexTypes, a);
    SlotMatchReflexive(y.indexTypes, b);
    if j < k {
      assert !IndexesMatch(a, b);
    } else {
      assert !IndexesMatch(b, a);
    }
    MatchedKeysEqual(y.indexTypes, s, a, b);
  }

  /**
   * One step of `+=`: under `e`'s key the array holds `e`'s value added to
   * what was there (or to a new element's default), and every element whose
   * indexes do not match `e`'s key is unchanged.
   */
  lemma MergeElementValues(acc: ArrayValue, e: ArrayElement)
    requires WellFormed(acc) && KeyFits(acc.indexTypes, e.indexes)
    ensures HoldsMerged(MergeElement(acc, e), acc, e)
    ensures forall i :: 0 <= i < |acc.elements| && !IndexesMatch(acc.elements[i].indexes, e.indexes) ==>
      MergeElement(acc, e).elements[i] == acc.elements[i]
    ensures FindFirst(acc.elements, e.indexes).Some? ==> |MergeElement(acc, e).elements| == |acc.elements|
    ensures FindFirst(acc.elements, e.indexes).None? ==>
      |MergeElement(acc, e).elements| == |acc.elements| + 1
      && MergeElement(acc, e).elements[|acc.elements|].indexes == MakeIndexes(acc.indexTypes, e.indexes)
  {
    var r := MergeElement(acc, e);
    var (a1, p1) := Locate(acc, e.indexes, true);
    LocateFindsCreated(acc, e.indexes);
    assert forall i :: 0 <= i < |a1.elements| ==> r.elements[i].indexes == a1.elements[i].indexes;
    FindFromExtended(a1.elements, r.elements, e.indexes, 0);
    if FindFirst(acc.elements, e.indexes).None? {
      assert a1.elements[|acc.elements|] == NewElement(acc, e.indexes);
    }
  }

  /** Merging a later key leaves the value already merged under an earlier key. */
  lemma MergeHoldsKept(x: ArrayValue, y: ArrayValue, acc: ArrayValue, k: nat, j: nat)
    requires WellFormed(acc) && WellFormed(y) && |acc.indexTypes| == |y.indexTypes|
    requires j < k < |y.elements| && KeyFits(acc.indexTypes, y.elements[k].indexes)
    requires HoldsMerged(acc, x, y.elements[j])
    ensures HoldsMerged(MergeElement(acc, y.elements[k]), x, y.elements[j])
  {
    var r := MergeElement(acc, y.elements[k]);
    var q := FindFirst(acc.elements, y.elements[j].indexes).value;
    assert Typed(acc.indexTypes, acc.elements[q].indexes);
    MatchesOneKey(y, acc.elements[q].indexes, j, k);
    MergeElementValues(acc, y.elements[k]);
    MergeElementShape(acc, y.elements[k]);
    FindFromExtended(acc.elements, r.elements, y.elements[j].indexes, 0);
  }

  /** Merging one key leaves another key of `y` found where it was, with the value it had. */
  lemma MergePendingKept(x: ArrayValue, y: ArrayValue, acc: ArrayValue, k: nat, j: nat)
    requires WellFormed(acc) && WellFormed(y) && |acc.indexTypes| == |y.indexTypes|
    requires k < j < |y.elements| && KeyFits(acc.indexTypes, y.elements[k].indexes)
    requires Pending(acc, x, y.elements[j])
    ensures Pending(MergeElement(acc, y.elements[k]), x, y.elements[j])
  {
    var e := y.elements[k];
    var r := MergeElement(acc, e);
    var key := y.elements[j].indexes;
    MergeElementValues(acc, e);
    MergeElementShape(acc, e);
    if FindFirst(acc.elements, key).Some? {
      var q := FindFirst(acc.elements, key).value;
      assert Typed(acc.indexTypes, acc.elements[q].indexes);
      MatchesOneKey(y, acc.elements[q].indexes, j, k);
      FindFromExtended(acc.elements, r.elements, key, 0);
    } else if FindFirst(acc.elements, e.indexes).None? {
      var made := MakeIndexes(acc.indexTypes, e.indexes);
      MakeIndexesTyped(acc.indexTypes, e.indexes);
      MadeIndexesMatchKey(acc.indexTypes, e.indexes);
      MatchesOneKey(y, made, k, j);
      FindFromExtended(acc.elements, r.elements, key, 0);
    } else {
      FindFromExtended(acc.elements, r.elements, key, 0);
    }
  }

  /** Merging the `k`-th element of `y` keeps `MergeValuesInv` for `k + 1`. */
  lemma MergeValuesStep(x: ArrayValue, y: ArrayValue, acc: ArrayValue, k: nat)
    requires WellFormed(y) && |x.indexTypes| == |y.indexTypes|
    requires MergeValuesInv(x, y, acc, k) && k < |y.elements|
    requires KeyFits(x.indexTypes, y.elements[k].indexes)
    ensures MergeValuesInv(x, y, MergeElement(acc, y.elements[k]), k + 1)
  {
    var e := y.elements[k];
    var r := MergeElement(acc, e);
    MergeElementStep(acc, e);
    MergeElementShape(acc, e);
    SameShapeTransitive(x, acc, r);
    MergeStepHolds(x, y, acc, k);
    MergeStepPending(x, y, acc, k);
    MergeStepUnmatched(x, y, acc, k);
  }

  /** After step `k` every key of `y` up to `k` holds its merged value. */
  lemma MergeStepHolds(x: ArrayValue, y: ArrayValue, acc: ArrayValue, k: nat)
    requires WellFormed(y) && |x.indexTypes| == |y.indexTypes|
    requires MergeValuesInv(x, y, acc, k) && k < |y.elements|
    requires KeyFits(x.indexTypes, y.elements[k].indexes)
    ensures forall j :: 0 <= j < k + 1 ==> HoldsMerged(MergeElement(acc, y.elements[k]), x, y.elements[j])
  {
    MergeHoldsEarlier(x, y, acc, k);
    MergeHoldsLast(x, acc, y.elements[k]);
  }

  /** Step `k` leaves every earlier key of `y` holding its merged value. */
  lemma MergeHoldsEarlier(x: ArrayValue, y: ArrayValue, acc: ArrayValue, k: nat)
    requires WellFormed(acc) && WellFormed(y) && |acc.indexTypes| == |y.indexTypes|
    requires k < |y.elements| && KeyFits(acc.indexTypes, y.elements[k].indexes)
    requires forall j :: 0 <= j < k ==> HoldsMerged(acc, x, y.elements[j])
    ensures forall j :: 0 <= j < k ==> HoldsMerged(MergeElement(acc, y.elements[k]), x, y.elements[j])
  {
    forall j | 0 <= j < k ensures HoldsMerged(MergeElement(acc, y.elements[k]), x, y.elements[j]) {
      MergeHoldsKept(x, y, acc, k, j);
    }
  }

  /** A key still pending in `acc` holds its merged value once it is merged. */
  lemma MergeHoldsLast(x: ArrayValue, acc: ArrayValue, e: ArrayElement)
    requires WellFormed(acc) && KeyFits(acc.indexTypes, e.indexes)
    requires Pending(acc, x, e)
    ensures HoldsMerged(MergeElement(acc, e), x, e)
  {
    MergeElementValues(acc, e);
  }

  /** After step `k` every later key of `y` is still found where `x` has it, with the same value. */
  lemma MergeStepPending(x: ArrayValue, y: ArrayValue, acc: ArrayValue, k: nat)
    requires WellFormed(y) && |x.indexTypes| == |y.indexTypes|
    requires MergeValuesInv(x, y, acc, k) && k < |y.elements|
    requires KeyFits(x.indexTypes, y.elements[k].indexes)
    ensures forall j :: k + 1 <= j < |y.elements| ==> Pending(MergeElement(acc, y.elements[k]), x, y.elements[j])
  {
    forall j | k + 1 <= j < |y.elements| ensures Pending(MergeElement(acc, y.elements[k]), x, y.elements[j]) {
      MergePendingKept(x, y, acc, k, j);
    }
  }

  /** Step `k` leaves every element of `x` that no key of `y` matches as it was. */
  lemma MergeStepUnmatched(x: ArrayValue, y: ArrayValue, acc: ArrayValue, k: nat)
    requires MergeValuesInv(x, y, acc, k) && k < |y.elements|
    requires KeyFits(x.indexTypes, y.elements[k].indexes)
    ensures forall i :: 0 <= i < |x.elements| && Unmatched(x.elements[i].indexes, y) ==>
      MergeElement(acc, y.elements[k]).elements[i] == x.elements[i]
  {
    var e := y.elements[k];
    MergeElementValues(acc, e);
    forall i | 0 <= i < |x.elements| && Unmatched(x.elements[i].indexes, y)
      ensures MergeElement(acc, e).elements[i] == x.elements[i]
    {
      assert !IndexesMatch(acc.elements[i].indexes, e.indexes);
    }
  }

  lemma {:induction false} MergeFromValues(x: ArrayValue, y: ArrayValue, acc: ArrayValue, k: nat)
    requires WellFormed(y) && |x.indexTypes| == |y.indexTypes|
    requires forall j :: 0 <= j < |y.elements| ==> KeyFits(x.indexTypes, y.elements[j].indexes)
    requires MergeValuesInv(x, y, acc, k)
    ensures MergeValuesInv(x, y, MergeFrom(acc, y, k), |y.elements|)
    decreases |y.elements| - k
  {
    if k < |y.elements| {
      var next := MergeElement(acc, y.elements[k]);
      MergeValuesStep(x, y, acc, k);
      MergeFromValues(x, y, next, k + 1);
      assert MergeFrom(acc, y, k) == MergeFrom(next, y, k + 1);
    }
  }

  /**
   * The values `x += y` leaves on compatible well-formed arrays: under every
   * key of `y`, `y`'s value for that key added to `x`'s value for it, or to
   * the default value of a new element when `x` has none; and every element
   * of `x` that no key of `y` matches is unchanged.
   */
  lemma MergeValues(x: ArrayValue, y: ArrayValue)
    requires WellFormed(x) && WellFormed(y)
    requires Compatible(DatatypeString(x), DatatypeString(y))
    ensures |x.elements| <= |Merge(x, y).elements|
    ensures forall j :: 0 <= j < |y.elements| ==> HoldsMerged(Merge(x, y), x, y.elements[j])
    ensures forall i :: 0 <= i < |x.elements| && Unmatched(x.elements[i].indexes, y) ==>
      Merge(x, y).elements[i] == x.elements[i]
  {
    MergeShape(x, y);
    CompatibleIndexArity(x, y);
    CompatibleKeysFit(x, y);
    assert MergeValuesInv(x, y, x, 0);
    MergeFromValues(x, y, x, 0);
  }

  // ---------------------------------------------------------------------
  // The Array class (array.cpp:418-667)
  // ---------------------------------------------------------------------

  /** `Array::getDatatypeString` builds the joined types one character at a time. */
  lemma {:induction false} JoinTypesSnoc(ts: seq<char>, c: char)
    requires |ts| > 0
    ensures JoinTypes(ts + [c]) == JoinTypes(ts) + [',', c]
  {
    if |ts| == 1 {
      assert (ts + [c])[1..] == [c];
    } else {
      assert (ts + [c])[1..] == ts[1..] + [c];
      JoinTypesSnoc(ts[1..], c);
    }
  }

  /** The scan of a nested array type string in `getElement` (array.cpp:603-619). */
  method DecodeArrayType(t: string) returns (indexTypes: seq<char>, elementType: string)
    ensures (indexTypes, elementType) == ArrayTypeParts(t)
  {
    if |t| < 3 {
      return [], "";
    }
    indexTypes := [];
    var i := 3;
    assert ScanIndexTypes(t, 3).0 == indexTypes + ScanIndexTypes(t, 3).0;
    while i < |t|
      invariant 3 <= i <= |t|
      invariant ScanIndexTypes(t, 3).0 == indexTypes + ScanIndexTypes(t, i).0
      invariant ScanIndexTypes(t, 3).1 == ScanIndexTypes(t, i).1
      decreases |t| - i
    {
      if t[i] == ']' {
        assert indexTypes + ScanIndexTypes(t, i).0 == indexTypes;
        i := i + 2;
        elementType := if i <= |t| then t[i..] else "";
        return;
      }
      if t[i] != ',' {
        assert indexTypes + ScanIndexTypes(t, i).0 == (indexTypes + [t[i]]) + ScanIndexTypes(t, i + 1).0;
        indexTypes := indexTypes + [t[i]];
      }
      i := i + 1;
    }
    assert indexTypes + ScanIndexTypes(t, i).0 == indexTypes;
    elementType := t[i..];
  }

  /** The default value of a created element (array.cpp:592-626). */
  method NewValue(elementType: string) returns (v: Value)
    ensures v == DefaultValue(elementType)
  {
    match Head(elementType)
    case 'i' => v := IntV(0);
    case 'f' => v := FloatV(0.0);
    case 'b' => v := BoolV(true);
    case 's' => v := StrV("");
    case 'a' =>
      var idx, et := DecodeArrayType(elementType);
      v := ArrV(ArrayValue(idx, et, []));
    case _ => v := NoValue;
  }

  /** What `Array::operator=` leaves: a copy of the source, or nothing when the source is the target itself. */
  function AssignedContents(source: ArrayValue, aliased: bool): ArrayValue
  {
    if aliased then ArrayValue([], "", []) else source
  }

  /** Self-assignment of a non-empty array loses its contents. */
  lemma SelfAssignmentEmpties(a: ArrayValue)
    requires |a.elements| > 0
    ensures AssignedContents(a, true) != a
    ensures AssignedContents(a, true).elements == []
  {
  }

  class Array {
    var indexTypes: seq<char>
    var elementType: string
    var elements: seq<ArrayElement>

    function Contents(): ArrayValue
      reads this
    {
      ArrayValue(indexTypes, elementType, elements)
    }

    /** `Array()`. */
    constructor Empty()
      ensures Contents() == ArrayValue([], "", [])
    {
      indexTypes, elementType, elements := [], "", [];
    }

    /** `Array(index_datatypes, element_datatype)`. */
    constructor (indexTypes: seq<char>, elementType: string)
      ensures Contents() == ArrayValue(indexTypes, elementType, [])
    {
      this.indexTypes, this.elementType, elements := indexTypes, elementType, [];
    }

    /** The copy constructor: the same types and a copy of every element, in order. */
    constructor Copy(other: Array)
      ensures Contents() == other.Contents()
    {
      var es: seq<ArrayElement> := [];
      var i := 0;
      while i < |other.elements|
        invariant 0 <= i <= |other.elements|
        invariant es == other.elements[..i]
      {
        es := es + [other.elements[i]];
        i := i + 1;
      }
      indexTypes, elementType, elements := other.indexTypes, other.elementType, es;
    }

    /** `clear`: no index types, an empty element type and no elements. */
    method Clear()
      modifies this
      ensures Contents() == ArrayValue([], "", [])
    {
      indexTypes := [];
      elementType := "";
      ClearElements();
    }

    /** `clearElements`: the types stay, the elements go. */
    method ClearElements()
      modifies this
      ensures Contents() == old(Contents()).(elements := [])
    {
      elements := [];
    }

    /**
     * `operator=` as written: it clears the target before copying, so when
     * the source is the target itself the copy reads the cleared array.
     */
    method Assign(other: Array)
      modifies this
      ensures Contents() == AssignedContents(old(other.Contents()), other == this)
    {
      Clear();
      indexTypes := other.indexTypes;
      elementType := other.elementType;
      var i := 0;
      while i < |other.elements|
        invariant 0 <= i <= |other.elements|
        invariant other == this ==> Contents() == ArrayValue([], "", [])
        invariant other != this ==> other.Contents() == old(other.Contents())
        invariant other != this ==> Contents() == other.Contents().(elements := other.elements[..i])
      {
        elements := elements + [other.elements[i]];
        i := i + 1;
      }
      assert other != this ==> other.elements[..i] == other.elements;
    }

    /** `operator=` with the self-assignment guard it lacks. */
    method AssignChecked(other: Array)
      modifies this
      ensures Contents() == old(other.Contents())
    {
      if other != this {
        Assign(other);
      }
    }

    /** The search loop of `getElement` (array.cpp:553-558). */
    method Find(key: seq<Value>) returns (pos: Option<nat>)
      ensures pos == FindFirst(elements, key)
    {
      var i := 0;
      while i < |elements|
        invariant 0 <= i <= |elements|
        invariant FindFirst(elements, key) == FindFrom(elements, key, i)
      {
        var hit := CheckIndexes(elements[i].indexes, key);
        if hit {
          return Some(i);
        }
        i := i + 1;
      }
      return None;
    }

    /**
     * `getElement(indexes, create)`: the element found, or, with `create`,
     * a new element appended with the key converted to the index types and
     * the element type's default value.
     */
    method GetElement(key: seq<Value>, create: bool) returns (pos: Option<nat>)
      modifies this
      ensures (Contents(), pos) == Locate(old(Contents()), key, create)
    {
      pos := Find(key);
      if pos.Some? || !create || |key| < |indexTypes| {
        return;
      }
      var idx: seq<Value> := [];
      var i := 0;
      while i < |indexTypes|
        invariant 0 <= i <= |indexTypes|
        invariant MakeIndexes(indexTypes, key) == idx + MakeIndexes(indexTypes[i..], key[i..])
      {
        assert indexTypes[i..][1..] == indexTypes[i + 1..] && key[i..][1..] == key[i + 1..];
        var m := MakeIndex(indexTypes[i], key[i]);
        if m.Some? {
          idx := idx + [m.value];
        }
        i := i + 1;
      }
      assert indexTypes[i..] == [] && idx + [] == idx;
      var v := NewValue(elementType);
      elements := elements + [ArrayElement(idx, v)];
      pos := Some(|elements| - 1);
    }

    /** `operator==`. */
    method Equals(other: Array) returns (r: bool)
      ensures r == ArrayEq(Contents(), other.Contents())
    {
      if |elements| != |other.elements| {
        return false;
      }
      var i := 0;
      while i < |elements|
        invariant 0 <= i <= |elements|
        invariant forall k :: 0 <= k < i ==> ElementFoundEqual(elements[k], other.Contents())
      {
        var p := other.Find(elements[i].indexes);
        if p.None? || ValueNe(elements[i].value, other.elements[p.value].value) {
          return false;
        }
        i := i + 1;
      }
      return true;
    }

    /** `operator!=`. */
    method NotEquals(other: Array) returns (r: bool)
      ensures r == ArrayNe(Contents(), other.Contents())
    {
      if |elements| != |other.elements| {
        return true;
      }
      var i := 0;
      while i < |elements|
        invariant 0 <= i <= |elements|
        invariant forall k :: 0 <= k < i ==> ElementFoundEqual(elements[k], other.Contents())
      {
        var p := other.Find(elements[i].indexes);
        if p.None? || ValueNe(elements[i].value, other.elements[p.value].value) {
          return true;
        }
        i := i + 1;
      }
      return false;
    }

    /** `getDatatypeString` with the separator and the type character appended as characters. */
    method GetDatatypeString() returns (s: string)
      ensures s == DatatypeString(Contents())
    {
      var joined: string := [];
      var i := 0;
      while i < |indexTypes|
        invariant 0 <= i <= |indexTypes|
        invariant joined == JoinTypes(indexTypes[..i])
      {
        if i == 0 {
          joined := [indexTypes[0]];
        } else {
          JoinTypesSnoc(indexTypes[..i], indexTypes[i]);
          assert indexTypes[..i + 1] == indexTypes[..i] + [indexTypes[i]];
          joined := joined + [',', indexTypes[i]];
        }
        i := i + 1;
      }
      assert indexTypes[..i] == indexTypes;
      s := "a [" + joined + "] " + elementType;
    }

    /** `areArraysCompatible`. */
    static method AreArraysCompatible(d1: string, d2: string) returns (r: bool)
      ensures r == Compatible(d1, d2)
    {
      if |d1| != |d2| {
        return false;
      }
      var i := 0;
      while i < |d1|
        invariant 0 <= i <= |d1|
        invariant forall k :: 0 <= k < i && d1[k] != d2[k] ==> d1[k] == 'f' && d2[k] == 'i'
      {
        if d1[i] != d2[i] && (d1[i] != 'f' || d2[i] != 'i') {
          return false;
        }
        i := i + 1;
      }
      return true;
    }

    /**
     * `operator+=`: when the datatype strings are compatible, every element
     * of `other`, in order, is looked up or created here and its value added
     * to it.  The loop walks the element list `other` had when it started.
     */
    method AddAssign(other: Array)
      modifies this
      ensures Contents() == Merge(old(Contents()), old(other.Contents()))
    {
      var d1 := GetDatatypeString();
      var d2 := other.GetDatatypeString();
      var ok := AreArraysCompatible(d1, d2);
      if !ok {
        return;
      }
      ghost var y := other.Contents();
      var src := other.elements;
      var k := 0;
      while k < |src|
        invariant 0 <= k <= |src|
        invariant src == y.elements
        invariant MergeFrom(Contents(), y, k) == Merge(old(Contents()), y)
      {
        var e := src[k];
        var p := GetElement(e.indexes, true);
        if p.Some? {
          var el := elements[p.value];
          elements := elements[p.value := el.(value := ValueAdd(el.value, e.value))];
        }
        k := k + 1;
      }
    }

    /** `operator+`: a copy of this array with `other` merged into it. */
    method Plus(other: Array) returns (r: Array)
      ensures fresh(r)
      ensures r.Contents() == Merge(Contents(), other.Contents())
    {
      r := new Array.Copy(this);
      r.AddAssign(other);
    }
  }
}
