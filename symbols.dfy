/**
 * The compiler's symbol table (parser.h): source positions, scopes, and the
 * registry of declared variables and functions with its two lookups, the
 * exact one that detects a duplicate declaration and the inheriting one
 * that finds the innermost visible declaration of a name.
 */
module Symbols {
  import opened Encoding
  import opened Assembler

  // ---------------------------------------------------------------------
  // CodeLocation (parser.h:130-146)
  // ---------------------------------------------------------------------

  /** A cursor into the source text: offset, row and column, -1 when unset. */
  datatype CodeLocation = CodeLocation(pos: int, row: int, col: int)

  const NO_LOCATION := CodeLocation(-1, -1, -1)

  /**
   * `CodeLocation::operator+` as written: the new row is built from the
   * old column plus the increment and the new column from the old row.
   */
  function PlusAsWritten(c: CodeLocation, inc: int): (r: CodeLocation)
    ensures r.pos == c.pos + inc
  {
    CodeLocation(c.pos + inc, c.col + inc, c.row)
  }

  /** Moving `inc` characters along one line: offset and column advance, the row stays. */
  function Plus(c: CodeLocation, inc: int): (r: CodeLocation)
    ensures r.pos == c.pos + inc && r.col == c.col + inc && r.row == c.row
  {
    CodeLocation(c.pos + inc, c.row, c.col + inc)
  }

  /** Moving along a line can be done in steps. */
  lemma PlusAdditive(c: CodeLocation, a: int, b: int)
    ensures Plus(Plus(c, a), b) == Plus(c, a + b)
  {
  }

  /** As written, moving by 0 from row 1, column 2 lands on row 2, column 1. */
  lemma PlusAsWrittenSwapsRowAndCol()
    ensures PlusAsWritten(CodeLocation(0, 1, 2), 0) == CodeLocation(0, 2, 1)
    ensures Plus(CodeLocation(0, 1, 2), 0) == CodeLocation(0, 1, 2)
  {
  }

  // ---------------------------------------------------------------------
  // Scope (parser.h:200-272)
  // ---------------------------------------------------------------------

  /** A scope is a path of segments, the root being ["0"]. */
  type Scope = seq<string>

  /** `Scope(parent, suffix)` and `Scope::add`. */
  function Add(s: Scope, segment: string): (r: Scope)
    ensures |r| == |s| + 1 && r[..|s|] == s && r[|s|] == segment
  {
    s + [segment]
  }

  /** `Scope::reduce`: drops the last segment; an empty scope stays empty. */
  function Reduce(s: Scope): (r: Scope)
    ensures |s| == 0 ==> r == s
    ensures |s| > 0 ==> |r| == |s| - 1 && s == r + [s[|s| - 1]]
  {
    if |s| == 0 then s else s[..|s| - 1]
  }

  /** `reduce` undoes `add`. */
  lemma ReduceAdd(s: Scope, segment: string)
    ensures Reduce(Add(s, segment)) == s
  {
  }

  /** `isRoot`: exactly the one segment "0". */
  predicate IsRoot(s: Scope)
  {
    |s| == 1 && s[0] == "0"
  }

  lemma IsRootIff(s: Scope)
    ensures IsRoot(s) <==> s == ["0"]
  {
    if IsRoot(s) {
      assert s == [s[0]];
    }
  }

  /** `s.startsWith(other)`: `other` is no longer than `s` and agrees with it segment by segment. */
  predicate StartsWith(s: Scope, other: Scope)
  {
    |other| <= |s| && forall i :: 0 <= i < |other| ==> s[i] == other[i]
  }

  /** `startsWith` is the prefix relation on segment sequences. */
  lemma StartsWithIsPrefix(s: Scope, other: Scope)
    ensures StartsWith(s, other) <==> (|other| <= |s| && s[..|other|] == other)
  {
    if |other| <= |s| && s[..|other|] == other {
      assert forall i :: 0 <= i < |other| ==> s[i] == s[..|other|][i];
    }
  }

  /** Every scope sees itself and the scopes it was built from, and nothing longer. */
  lemma StartsWithAdd(s: Scope, segment: string, other: Scope)
    ensures StartsWith(Add(s, segment), s)
    ensures StartsWith(s, other) ==> StartsWith(Add(s, segment), other)
    ensures !StartsWith(s, Add(s, segment))
  {
  }

  lemma StartsWithTransitive(a: Scope, b: Scope, c: Scope)
    requires StartsWith(a, b) && StartsWith(b, c)
    ensures StartsWith(a, c)
  {
  }

  /** The loop of `Scope::startsWith`, with its early returns. */
  method StartsWithScan(s: Scope, other: Scope) returns (b: bool)
    ensures b == StartsWith(s, other)
  {
    if |s| < |other| {
      return false;
    }
    var i := 0;
    while i < |other|
      invariant 0 <= i <= |other|
      invariant forall k :: 0 <= k < i ==> s[k] == other[k]
    {
      if s[i] != other[i] {
        return false;
      }
      i := i + 1;
    }
    return true;
  }

  /** The pieces joined by `sep`; `toString` joins a scope's segments by '.'. */
  function Join(s: seq<string>, sep: char): (r: string)
  {
    if |s| == 0 then "" else if |s| == 1 then s[0] else Join(s[..|s| - 1], sep) + [sep] + s[|s| - 1]
  }

  /** The loop of `Scope::toString`. */
  method ToString(s: Scope) returns (r: string)
    ensures r == Join(s, '.')
  {
    r := "";
    var isFirst := true;
    var i := 0;
    while i < |s|
      invariant 0 <= i <= |s|
      invariant isFirst <==> i == 0
      invariant r == Join(s[..i], '.')
    {
      assert s[..i + 1][..i] == s[..i];
      if isFirst {
        r := s[i];
        isFirst := false;
      } else {
        r := r + "." + s[i];
      }
      i := i + 1;
    }
    assert s[..i] == s;
  }

  /** No piece contains `sep`. */
  predicate AllLack(s: seq<string>, sep: char)
  {
    forall i :: 0 <= i < |s| ==> Lacks(s[i], sep)
  }

  predicate Lacks(seg: string, sep: char)
  {
    forall k :: 0 <= k < |seg| ==> seg[k] != sep
  }

  /**
   * The pieces of `t` between occurrences of `sep`, as `boost::split` with
   * a one-character separator set gives them (an empty `t` is one empty
   * piece); the inverse of `Join` on pieces that lack `sep`.
   */
  function Split(t: string, sep: char): (r: seq<string>)
    ensures |r| >= 1
    decreases |t|
  {
    if |t| == 0 then [""]
    else if t[|t| - 1] == sep then Split(t[..|t| - 1], sep) + [""]
    else
      var init := Split(t[..|t| - 1], sep);
      init[..|init| - 1] + [init[|init| - 1] + [t[|t| - 1]]]
  }

  /** A character other than `sep` extends the last piece. */
  lemma SplitChar(u: string, c: char, sep: char)
    requires c != sep
    ensures var l := Split(u, sep); Split(u + [c], sep) == l[..|l| - 1] + [l[|l| - 1] + [c]]
  {
    var v := u + [c];
    assert v[..|v| - 1] == u && v[|v| - 1] == c;
  }

  lemma {:induction false} SplitAppendSegment(t: string, seg: string, sep: char)
    requires Lacks(seg, sep)
    ensures var r := Split(t + seg, sep); var l := Split(t, sep);
      r == l[..|l| - 1] + [l[|l| - 1] + seg]
    decreases |seg|
  {
    var l := Split(t, sep);
    var p, last := l[..|l| - 1], l[|l| - 1];
    if |seg| > 0 {
      var init := seg[..|seg| - 1];
      var c := seg[|seg| - 1];
      assert Lacks(init, sep);
      SplitAppendSegment(t, init, sep);
      assert t + seg == (t + init) + [c];
      SplitChar(t + init, c, sep);
      var m := p + [last + init];
      assert m[..|m| - 1] == p && m[|m| - 1] == last + init;
      assert last + init + [c] == last + seg;
    } else {
      assert t + seg == t;
      assert last + seg == last;
      assert p + [last] == l;
    }
  }

  /** A piece without `sep` splits into itself. */
  lemma SplitSegment(seg: string, sep: char)
    requires Lacks(seg, sep)
    ensures Split(seg, sep) == [seg]
  {
    SplitAppendSegment("", seg, sep);
    assert "" + seg == seg;
    assert Split("", sep) == [""];
  }

  /** A trailing separator opens an empty last piece. */
  lemma SplitSep(t: string, sep: char)
    ensures Split(t + [sep], sep) == Split(t, sep) + [""]
  {
    var u := t + [sep];
    assert u[..|u| - 1] == t && u[|u| - 1] == sep;
  }

  /** Appending a separator and a piece without it appends the piece to `t`'s split. */
  lemma SplitSepSegment(t: string, seg: string, sep: char)
    requires Lacks(seg, sep)
    ensures Split(t + [sep] + seg, sep) == Split(t, sep) + [seg]
  {
    var l := Split(t, sep) + [""];
    SplitSep(t, sep);
    SplitAppendSegment(t + [sep], seg, sep);
    assert l[..|l| - 1] == Split(t, sep);
    assert l[|l| - 1] + seg == seg;
  }

  /** Without its last piece a list of pieces lacking `sep` still lacks it, and so does the last piece. */
  lemma AllLackParts(s: seq<string>, sep: char)
    requires |s| > 0 && AllLack(s, sep)
    ensures AllLack(s[..|s| - 1], sep)
    ensures Lacks(s[|s| - 1], sep)
  {
    var init := s[..|s| - 1];
    forall i | 0 <= i < |init| ensures Lacks(init[i], sep) {
      assert init[i] == s[i];
    }
  }

  /** Dropping the last piece and putting it back gives the list. */
  lemma InitLast(s: seq<string>)
    requires |s| > 0
    ensures s[..|s| - 1] + [s[|s| - 1]] == s
  {
  }

  /**
   * Joining loses nothing on a non-empty list of pieces that lack the
   * separator; in particular `toString` loses nothing on a non-empty scope
   * whose segments contain no dot.
   */
  lemma {:induction false} SplitJoin(s: seq<string>, sep: char)
    requires |s| > 0 && AllLack(s, sep)
    ensures Split(Join(s, sep), sep) == s
    decreases |s|
  {
    AllLackParts(s, sep);
    if |s| == 1 {
      SplitSegment(s[0], sep);
    } else {
      var init := s[..|s| - 1];
      SplitJoin(init, sep);
      assert Join(s, sep) == Join(init, sep) + [sep] + s[|s| - 1];
      SplitSepSegment(Join(init, sep), s[|s| - 1], sep);
      InitLast(s);
    }
  }

  // ---------------------------------------------------------------------
  // Variable (parser.h:274-339)
  // ---------------------------------------------------------------------

  datatype EntityType = Undefined | BuiltinVariable | Variable | DynamicVariable | BuiltinFunction | Function

  datatype VariableInfo = VariableInfo(
    entityType: EntityType,
    scope: Scope,
    name: string,
    typeString: string,
    funParams: string,
    position: CodeLocation,
    idx: int,
    functionRef: int)

  /** `Variable(entityType, scope, name, type, type_fun_params, code_position)`: no index, no function yet. */
  function NewVariable(t: EntityType, scope: Scope, name: string, typeString: string,
                       funParams: string, position: CodeLocation): VariableInfo
  {
    VariableInfo(t, scope, name, typeString, funParams, position, -1, -1)
  }

  /** `Variable::operator==`: the same scope and the same name; nothing else counts. */
  predicate SameVariable(a: VariableInfo, b: VariableInfo)
  {
    a.scope == b.scope && a.name == b.name
  }

  lemma SameVariableIgnoresRest(a: VariableInfo, t: EntityType, typeString: string, funParams: string, p: CodeLocation)
    ensures SameVariable(a, NewVariable(t, a.scope, a.name, typeString, funParams, p))
    ensures forall b: VariableInfo :: SameVariable(a, b) <==> SameVariable(b, a)
  {
  }

  /** `operator==` looks only at scope and name, and so does the search for an equal entry. */
  lemma {:induction false} FindSameByKey(vs: seq<VariableInfo>, a: VariableInfo, b: VariableInfo)
    requires a.scope == b.scope && a.name == b.name
    ensures FindSame(vs, a) == FindSame(vs, b)
    decreases |vs|
  {
    if |vs| > 0 {
      FindSameByKey(vs[1..], a, b);
    }
  }

  /** The variable `getVariable` reports on a miss (parser.h:436-442). */
  function Missing(name: string): (r: VariableInfo)
    ensures r.entityType == Undefined && r.idx == -1 && r.scope == [] && r.name == name
  {
    NewVariable(Undefined, [], name, "", "", NO_LOCATION)
  }

  // ---------------------------------------------------------------------
  // Lookups over the table (parser.h:357-442)
  // ---------------------------------------------------------------------

  /** The position of the first entry equal to `v` under `operator==`. */
  function FindSame(vs: seq<VariableInfo>, v: VariableInfo): (r: Option<nat>)
    ensures r.Some? ==> (r.value < |vs| && SameVariable(vs[r.value], v)
      && forall j :: 0 <= j < r.value ==> !SameVariable(vs[j], v))
    ensures r.None? ==> forall j :: 0 <= j < |vs| ==> !SameVariable(vs[j], v)
  {
    if |vs| == 0 then None
    else if SameVariable(vs[0], v) then Some(0)
    else match FindSame(vs[1..], v)
      case None => None
      case Some(k) => Some(k + 1)
  }

  /** An entry the inheriting lookup may return: the same name, declared in a scope the query scope starts with. */
  predicate Visible(v: VariableInfo, scope: Scope, name: string)
  {
    v.name == name && StartsWith(scope, v.scope)
  }

  /**
   * The inheriting lookup over the first `n` entries, as its loop computes
   * it: an entry replaces the current best only if its scope is strictly
   * longer, the best starting as an empty scope.
   */
  function InheritedAmong(vs: seq<VariableInfo>, scope: Scope, name: string, n: nat): (r: Option<nat>)
    requires n <= |vs|
    ensures r.Some? ==> r.value < n
  {
    if n == 0 then None
    else
      var best := InheritedAmong(vs, scope, name, n - 1);
      var bestLen := if best.Some? then |vs[best.value].scope| else 0;
      if Visible(vs[n - 1], scope, name) && |vs[n - 1].scope| > bestLen then Some(n - 1) else best
  }

  /** The innermost visible declaration, the earliest among equally deep ones. */
  predicate Innermost(vs: seq<VariableInfo>, scope: Scope, name: string, i: nat, n: nat)
    requires n <= |vs|
  {
    i < n && Visible(vs[i], scope, name) && |vs[i].scope| > 0
    && (forall j :: 0 <= j < n && Visible(vs[j], scope, name) ==> |vs[j].scope| <= |vs[i].scope|)
    && (forall j :: 0 <= j < i && Visible(vs[j], scope, name) ==> |vs[j].scope| < |vs[i].scope|)
  }

  /**
   * The inheriting lookup finds the innermost visible declaration of the
   * name, ties going to the earliest entry; it finds nothing exactly when
   * every visible declaration has the empty scope.
   */
  lemma {:induction false} InheritedIsInnermost(vs: seq<VariableInfo>, scope: Scope, name: string, n: nat)
    requires n <= |vs|
    ensures var r := InheritedAmong(vs, scope, name, n);
      (r.Some? ==> Innermost(vs, scope, name, r.value, n))
      && (r.None? <==> forall j :: 0 <= j < n && Visible(vs[j], scope, name) ==> |vs[j].scope| == 0)
  {
    if n > 0 {
      InheritedIsInnermost(vs, scope, name, n - 1);
    }
  }

  /** Exactly one position satisfies `Innermost`, so the lookup's answer is determined by it. */
  lemma InnermostUnique(vs: seq<VariableInfo>, scope: Scope, name: string, i: nat, k: nat)
    requires Innermost(vs, scope, name, i, |vs|) && Innermost(vs, scope, name, k, |vs|)
    ensures i == k
  {
  }

  datatype ScopeRange = Exact | Inheritance

  // ---------------------------------------------------------------------
  // Variables (parser.h:341-469)
  // ---------------------------------------------------------------------

  /** The table of declared entities. */
  class Variables {
    var variables: seq<VariableInfo>

    /** Every entry knows its own position, and no two share a scope and a name. */
    predicate Valid()
      reads this
    {
      (forall i :: 0 <= i < |variables| ==> variables[i].idx == i)
      && forall i, j :: 0 <= i < j < |variables| ==> !SameVariable(variables[i], variables[j])
    }

    constructor ()
      ensures variables == [] && Valid()
    {
      variables := [];
    }

    method Clear()
      modifies this
      ensures variables == [] && Valid()
    {
      variables := [];
    }

    /**
     * `Variables::add`: a new (scope, name) is appended with its position as
     * its index; an existing one leaves the table as it was and reports that
     * entry's index.
     */
    method Add(v: VariableInfo) returns (added: bool, pos: int)
      modifies this
      ensures var f := FindSame(old(variables), v);
        if f.None? then
          added && pos == |old(variables)| && variables == old(variables) + [v.(idx := pos)]
        else
          !added && pos == old(variables)[f.value].idx && variables == old(variables)
      ensures old(Valid()) ==> Valid()
      ensures old(Valid()) && !added ==> SameVariable(variables[pos], v)
      ensures old(Valid()) ==> 0 <= pos < |variables|
    {
      var f := FindSame(variables, v);
      if f.None? {
        pos := |variables|;
        variables := variables + [v.(idx := pos)];
        added := true;
      } else {
        pos := variables[f.value].idx;
        added := false;
      }
    }

    /**
     * `getDatatype`: the type of the first entry with that name in any
     * scope, "-1" if there is none.
     */
    method GetDatatype(name: string) returns (t: string)
      ensures (exists i :: 0 <= i < |variables| && variables[i].name == name) ==>
        exists i :: 0 <= i < |variables| && variables[i].name == name && t == variables[i].typeString
          && forall j :: 0 <= j < i ==> variables[j].name != name
      ensures (forall i :: 0 <= i < |variables| ==> variables[i].name != name) ==> t == "-1"
    {
      var i := 0;
      while i < |variables|
        invariant 0 <= i <= |variables|
        invariant forall j :: 0 <= j < i ==> variables[j].name != name
      {
        if variables[i].name == name {
          return variables[i].typeString;
        }
        i := i + 1;
      }
      return "-1";
    }

    /**
     * `getVariable`.  EXACT: the first entry with the same name and scope.
     * INHERITANCE: the innermost visible declaration (see
     * `InheritedIsInnermost`).  On a miss: false and `Missing(name)`.
     */
    method GetVariable(scope: Scope, range: ScopeRange, name: string) returns (found: bool, v: VariableInfo)
      ensures range == Exact ==>
        var f := FindSame(variables, Missing(name).(scope := scope));
        found == f.Some? && v == (if found then variables[f.value] else Missing(name))
      ensures range == Inheritance ==>
        var r := InheritedAmong(variables, scope, name, |variables|);
        found == r.Some? && v == (if found then variables[r.value] else Missing(name))
    {
      if range == Exact {
        found, v := GetExact(scope, name);
      } else {
        found, v := GetInherited(scope, name);
      }
    }

    /** The EXACT search of `getVariable`: the first entry with the same name and scope. */
    method GetExact(scope: Scope, name: string) returns (found: bool, v: VariableInfo)
      ensures var f := FindSame(variables, Missing(name).(scope := scope));
        found == f.Some? && v == (if found then variables[f.value] else Missing(name))
    {
      var i := 0;
      while i < |variables|
        invariant 0 <= i <= |variables|
        invariant FindSame(variables, Missing(name).(scope := scope)) == ShiftOpt(FindSame(variables[i..], Missing(name).(scope := scope)), i)
      {
        if variables[i].name == name && variables[i].scope == scope {
          return true, variables[i];
        }
        assert variables[i..][1..] == variables[i + 1..];
        i := i + 1;
      }
      return false, Missing(name);
    }

    /**
     * The INHERITANCE search of `getVariable`: among the entries named
     * `name` whose scope `scope` starts with, the first of the longest scope.
     */
    method GetInherited(scope: Scope, name: string) returns (found: bool, v: VariableInfo)
      ensures var r := InheritedAmong(variables, scope, name, |variables|);
        found == r.Some? && v == (if found then variables[r.value] else Missing(name))
    {
      var maxLen := 0;
      var foundIdx := -1;
      var i := 0;
      while i < |variables|
        invariant 0 <= i <= |variables|
        invariant var r := InheritedAmong(variables, scope, name, i);
          (foundIdx == -1 <==> r.None?) && (r.Some? ==> foundIdx == r.value && maxLen == |variables[r.value].scope|)
            && (r.None? ==> maxLen == 0)
      {
        if variables[i].name == name {
          var visible := StartsWithScan(scope, variables[i].scope);
          if visible && |variables[i].scope| > maxLen {
            maxLen := |variables[i].scope|;
            foundIdx := i;
          }
        }
        i := i + 1;
      }
      if foundIdx != -1 {
        return true, variables[foundIdx];
      }
      return false, Missing(name);
    }

    /** `setFunctionRef(idx, ref)`: sets the entry's function offset, ignoring an index past the end. */
    method SetFunctionRef(idx: nat, ref: int)
      modifies this
      ensures idx < |old(variables)| ==> variables == old(variables)[idx := old(variables)[idx].(functionRef := ref)]
      ensures idx >= |old(variables)| ==> variables == old(variables)
      ensures old(Valid()) ==> Valid()
    {
      if idx < |variables| {
        variables := variables[idx := variables[idx].(functionRef := ref)];
      }
    }

    /**
     * `updateFunctionRefs`: each function fix-up gives its entry the code
     * offset of the function body; a later fix-up of the same entry wins.
     */
    method UpdateFunctionRefs(refs: seq<FunctionRef>)
      requires forall k :: 0 <= k < |refs| ==> refs[k].variableIndex < |variables|
      modifies this
      ensures variables == WithFunctionRefs(old(variables), refs)
      ensures old(Valid()) ==> Valid()
    {
      var k := 0;
      while k < |refs|
        invariant 0 <= k <= |refs|
        invariant |variables| == |old(variables)|
        invariant variables == WithFunctionRefs(old(variables), refs[..k])
        invariant old(Valid()) ==> Valid()
      {
        assert refs[..k + 1][..k] == refs[..k];
        variables := variables[refs[k].variableIndex := variables[refs[k].variableIndex].(functionRef := refs[k].functionPos)];
        k := k + 1;
      }
      assert refs[..k] == refs;
    }
  }

  /** Option position shifted by `d`. */
  function ShiftOpt(o: Option<nat>, d: nat): Option<nat>
  {
    if o.Some? then Some(o.value + d) else None
  }

  /** The table after applying the function fix-ups `refs` in order. */
  function WithFunctionRefs(vs: seq<VariableInfo>, refs: seq<FunctionRef>): (r: seq<VariableInfo>)
    requires forall k :: 0 <= k < |refs| ==> refs[k].variableIndex < |vs|
    ensures |r| == |vs|
    decreases |refs|
  {
    if |refs| == 0 then vs
    else
      var before := WithFunctionRefs(vs, refs[..|refs| - 1]);
      var f := refs[|refs| - 1];
      before[f.variableIndex := before[f.variableIndex].(functionRef := f.functionPos)]
  }

  /**
   * After the fix-ups every referenced entry carries the offset of its last
   * fix-up, and an entry no fix-up names is untouched.
   */
  lemma {:induction false} WithFunctionRefsAt(vs: seq<VariableInfo>, refs: seq<FunctionRef>, i: nat)
    requires forall k :: 0 <= k < |refs| ==> refs[k].variableIndex < |vs|
    requires i < |vs|
    ensures var r := WithFunctionRefs(vs, refs);
      r[i].(functionRef := vs[i].functionRef) == vs[i]
      && ((forall k :: 0 <= k < |refs| ==> refs[k].variableIndex != i) ==> r[i] == vs[i])
      && forall k :: 0 <= k < |refs| && refs[k].variableIndex == i && (forall m :: k < m < |refs| ==> refs[m].variableIndex != i) ==>
           r[i].functionRef == refs[k].functionPos
    decreases |refs|
  {
    if |refs| > 0 {
      var init := refs[..|refs| - 1];
      assert forall k :: 0 <= k < |init| ==> init[k] == refs[k];
      WithFunctionRefsAt(vs, init, i);
    }
  }
}
