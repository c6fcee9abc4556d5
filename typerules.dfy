/**
 * The compiler's static type rules (parser.cpp:77-148, 700-708).  A type is
 * a type string: "i" int, "f" float, "s" string, "b" boolean, "n" the
 * operand type of unary minus (either kind of number), "-1" not yet known,
 * and "a [<index types>] <element type>" for an array, the index types
 * separated by commas.
 */
module TypeRules {
  import opened Text
  import opened Symbols

  const UNKNOWN_DATATYPE: string := "-1"

  /** `isDatatypeNumeric`. */
  predicate IsNumeric(t: string)
  {
    t == "i" || t == "f" || t == "n"
  }

  /** `isDatatypeConsistent`: the operands of a comparison, or the two branches of `?:`. */
  predicate Consistent(a: string, b: string)
  {
    a == b || (IsNumeric(a) && IsNumeric(b))
  }

  /** `isDatatypeConsistentAssignment`: a value of type `r` may be stored where `l` is expected. */
  predicate ConsistentAssignment(l: string, r: string)
  {
    l == r || ((l == "f" || l == "n") && IsNumeric(r))
  }

  /**
   * Two types are consistent exactly when a value of one of them may be
   * assigned to the other; an int may receive no float.
   */
  lemma ConsistentIsEitherAssignment(a: string, b: string)
    ensures Consistent(a, b) <==> ConsistentAssignment(a, b) || ConsistentAssignment(b, a)
    ensures ConsistentAssignment("f", "i") && !ConsistentAssignment("i", "f")
  {
  }

  /** Consistency is reflexive and symmetric. */
  lemma ConsistentSymmetric(a: string, b: string)
    ensures Consistent(a, a)
    ensures Consistent(a, b) ==> Consistent(b, a)
  {
  }

  /** `isDatatypeConsistentFunctionArguments` as its loop decides it. */
  predicate ArgumentsConsistent(defTypes: string, argTypes: string)
  {
    var ds, as_ := Split(defTypes, ','), Split(argTypes, ',');
    |ds| == |as_| && forall i :: 0 <= i < |ds| ==> ConsistentAssignment(ds[i], as_[i])
  }

  /**
   * `isDatatypeConsistentFunctionArguments`: both lists are split at the
   * commas; they must have as many pieces, and each argument must be
   * assignable to its parameter.
   */
  method ConsistentFunctionArguments(defTypes: string, argTypes: string) returns (r: bool)
    ensures r == ArgumentsConsistent(defTypes, argTypes)
  {
    var ds := Split(defTypes, ',');
    var as_ := Split(argTypes, ',');
    if |ds| != |as_| {
      return false;
    }
    var i := 0;
    while i < |ds|
      invariant 0 <= i <= |ds|
      invariant forall k :: 0 <= k < i ==> ConsistentAssignment(ds[k], as_[k])
    {
      if !ConsistentAssignment(ds[i], as_[i]) {
        return false;
      }
      i := i + 1;
    }
    return true;
  }

  /**
   * The parameter list of a declaration and the argument list of a call
   * are joined by ','; when no single type contains a comma they agree
   * exactly when they have the same length and each argument is assignable
   * to its parameter.
   */
  lemma ArgumentsConsistentJoined(ds: seq<string>, as_: seq<string>)
    requires |ds| > 0 && AllLack(ds, ',')
    requires |as_| > 0 && AllLack(as_, ',')
    ensures ArgumentsConsistent(Join(ds, ','), Join(as_, ',')) <==>
      |ds| == |as_| && forall i :: 0 <= i < |ds| ==> ConsistentAssignment(ds[i], as_[i])
  {
    SplitJoin(ds, ',');
    SplitJoin(as_, ',');
  }

  /**
   * `maxDatatype`: the type of a chain of `+`, `-`, `*`, `/` or of `?:`.
   * "-1" is the identity, float wins over int, "n" takes the other numeric
   * type, and anything else is unknown.
   */
  function MaxDatatype(a: string, b: string): string
  {
    if a == b then a
    else if a == UNKNOWN_DATATYPE then b
    else if b == UNKNOWN_DATATYPE then a
    else if a == "i" && b == "f" then b
    else if a == "i" && b == "n" then a
    else if a == "f" && b == "i" then a
    else if a == "f" && b == "n" then a
    else if a == "n" && b == "i" then b
    else if a == "n" && b == "f" then b
    else UNKNOWN_DATATYPE
  }

  /** The order of the operands does not matter, and "-1" is the identity. */
  lemma MaxDatatypeCommutative(a: string, b: string)
    ensures MaxDatatype(a, b) == MaxDatatype(b, a)
    ensures MaxDatatype(UNKNOWN_DATATYPE, b) == b && MaxDatatype(b, UNKNOWN_DATATYPE) == b
  {
  }

  /**
   * On numbers the result is one of the operands and numeric, float
   * exactly when an operand is float, and it is "n" only when both are.
   */
  lemma MaxDatatypeNumeric(a: string, b: string)
    requires IsNumeric(a) && IsNumeric(b)
    ensures MaxDatatype(a, b) == a || MaxDatatype(a, b) == b
    ensures MaxDatatype(a, b) == "f" <==> (a == "f" || b == "f")
    ensures MaxDatatype(a, b) == "n" <==> (a == "n" && b == "n")
  {
  }

  /** Two different known types that are not both numeric have no common type. */
  lemma MaxDatatypeMismatch(a: string, b: string)
    requires a != b && a != UNKNOWN_DATATYPE && b != UNKNOWN_DATATYPE
    requires !(IsNumeric(a) && IsNumeric(b))
    ensures MaxDatatype(a, b) == UNKNOWN_DATATYPE
  {
  }

  /** The type of a chain, folded from "-1" as the loops of the expression rules fold it. */
  function ChainType(ts: seq<string>): string
  {
    if |ts| == 0 then UNKNOWN_DATATYPE else MaxDatatype(ChainType(ts[..|ts| - 1]), ts[|ts| - 1])
  }

  /** A chain of numbers is float exactly when one of its operands is. */
  lemma {:induction false} ChainTypeNumeric(ts: seq<string>)
    requires |ts| > 0 && forall k :: 0 <= k < |ts| ==> IsNumeric(ts[k])
    ensures IsNumeric(ChainType(ts))
    ensures ChainType(ts) == "f" <==> exists k :: 0 <= k < |ts| && ts[k] == "f"
    decreases |ts|
  {
    var init := ts[..|ts| - 1];
    if |init| == 0 {
      assert ChainType(ts) == ts[0];
    } else {
      assert forall k :: 0 <= k < |init| ==> init[k] == ts[k];
      ChainTypeNumeric(init);
      MaxDatatypeNumeric(ChainType(init), ts[|ts| - 1]);
      if ChainType(ts) == "f" && ts[|ts| - 1] != "f" {
        var k :| 0 <= k < |init| && init[k] == "f";
        assert ts[k] == "f";
      }
      if ChainType(ts) != "f" {
        forall k | 0 <= k < |ts| ensures ts[k] != "f" {
          if k < |init| {
            assert init[k] == ts[k];
          }
        }
      }
    }
  }

  /**
   * `process_array_datatype`: indexing an array of type `t` with arguments
   * of types `indexTypes` (comma-joined) is allowed when `t` starts, ignoring
   * case, with "a [" + indexTypes + "]"; the result is the element type,
   * what is left after removing that prefix and one more character (the
   * space before the element type).  Otherwise nothing changes.
   */
  function ProcessArrayDatatype(t: string, indexTypes: string): (r: (bool, string))
    ensures r.0 <==> StartsWithIgnoreCase(t, "a [" + indexTypes + "]")
    ensures !r.0 ==> r.1 == t
    ensures r.0 && |indexTypes| + 5 <= |t| ==> t == t[..|indexTypes| + 5] + r.1
  {
    if StartsWithIgnoreCase(t, "a [" + indexTypes + "]") then
      var n := |indexTypes| + 5;
      (true, if n <= |t| then t[n..] else "")
    else (false, t)
  }

  /**
   * Indexing an array declared `array [<index types>] of <element>` with
   * arguments of exactly those index types yields the element type.
   */
  lemma ProcessArrayDatatypeOfDeclared(indexTypes: string, element: string)
    ensures ProcessArrayDatatype("a [" + indexTypes + "] " + element, indexTypes) == (true, element)
  {
    var prefix := "a [" + indexTypes + "]";
    var t := "a [" + indexTypes + "] " + element;
    assert t == prefix + (" " + element);
    forall i | 0 <= i < |prefix| ensures Upper(t[0 + i]) == Upper(prefix[i]) {
      assert t[i] == prefix[i];
    }
    assert t[|indexTypes| + 5..] == element;
  }
}
