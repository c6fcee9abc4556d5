/**
 * The shape of the code and of the DATA section that the statement rules
 * and `Parser::parse` lay out (parser.cpp:1763-1774, 1894-1937,
 * 2128-2155): a straight run of instructions, the INITVARs of a scope, the
 * prologue of a function, and one DATA, DDATA or FUN entry per entity of
 * the symbol table.
 */
module Layout {
  import opened Encoding
  import opened Symbols
  import opened Instructions
  import opened Datatypes
  import opened Assembler

  // ---------------------------------------------------------------------
  // Straight-line code
  // ---------------------------------------------------------------------

  /** The bytes of a run of instructions, each encoded after the previous one. */
  function Listing(xs: seq<Instr>): seq<byte>
    decreases |xs|
  {
    if |xs| == 0 then [] else Listing(xs[..|xs| - 1]) + Encode(xs[|xs| - 1])
  }

  /** A prefix of a prefix is a prefix. */
  lemma PrefixTransitive<T>(a: seq<T>, b: seq<T>, c: seq<T>)
    requires a <= b && b <= c
    ensures a <= c
  {
    assert c[..|a|] == c[..|b|][..|a|];
  }

  lemma SeqAssoc<T>(a: seq<T>, b: seq<T>, c: seq<T>)
    ensures (a + b) + c == a + (b + c)
  {
  }

  /** One more instruction adds its encoding at the end. */
  lemma ListingSnoc(xs: seq<Instr>, x: Instr)
    ensures Listing(xs + [x]) == Listing(xs) + Encode(x)
  {
    assert (xs + [x])[..|xs|] == xs;
  }

  /** The listing of two runs is the listing of the first followed by that of the second. */
  lemma {:induction false} ListingAppend(a: seq<Instr>, b: seq<Instr>)
    ensures Listing(a + b) == Listing(a) + Listing(b)
    decreases |b|
  {
    if |b| > 0 {
      var b', x := b[..|b| - 1], b[|b| - 1];
      assert b == b' + [x];
      assert a + b == (a + b') + [x];
      ListingSnoc(a + b', x);
      ListingSnoc(b', x);
      ListingAppend(a, b');
      SeqAssoc(Listing(a), Listing(b'), Encode(x));
    } else {
      assert a + b == a;
    }
  }

  /** One more instruction in front adds its encoding in front. */
  lemma ListingCons(x: Instr, xs: seq<Instr>)
    ensures Listing([x] + xs) == Encode(x) + Listing(xs)
  {
    ListingAppend([x], xs);
    assert Listing([x]) == Encode(x) by {
      ListingSnoc([], x);
      assert [] + [x] == [x];
    }
  }

  /**
   * A listing reads back instruction by instruction: the `i`-th
   * instruction is decoded at the end of the listing of those before it,
   * and decoding it moves to the end of the listing that includes it.
   */
  lemma ListingDecodes(xs: seq<Instr>, i: nat)
    requires i < |xs| && forall k :: 0 <= k < |xs| ==> Encodable(xs[k])
    ensures |Listing(xs[..i])| < |Listing(xs)|
    ensures var next: nat := |Listing(xs[..i + 1])|; Decode(Listing(xs), |Listing(xs[..i])|) == Some((xs[i], next))
  {
    var pre, post := xs[..i], xs[i + 1..];
    assert xs == pre + [xs[i]] + post;
    ListingAppend(pre + [xs[i]], post);
    ListingAppend(pre, [xs[i]]);
    assert Listing([xs[i]]) == Encode(xs[i]) by {
      assert [xs[i]][..0] == [];
    }
    assert xs[..i + 1] == pre + [xs[i]];
    DecodeInside(Listing(xs), Listing(pre), xs[i], Listing(post));
  }

  /** `DecodeEncode` for code already known to be made of the three parts. */
  lemma DecodeInside(code: seq<byte>, pre: seq<byte>, ins: Instr, post: seq<byte>)
    requires Encodable(ins) && code == pre + Encode(ins) + post
    ensures |pre| < |code|
    ensures Decode(code, |pre|) == Some((ins, |pre + Encode(ins)|))
  {
    DecodeEncode(pre, ins, post);
  }

  // ---------------------------------------------------------------------
  // initVars (parser.cpp:1763-1774)
  // ---------------------------------------------------------------------

  /** The entries `initVars` initialises for `scope`: the variables declared in exactly that scope. */
  predicate InitialisedIn(v: VariableInfo, scope: Scope)
  {
    (v.entityType == EntityType.Variable || v.entityType == EntityType.DynamicVariable) && v.scope == scope
  }

  /** How many of `vs` `initVars` initialises for `scope`. */
  function InitCount(vs: seq<VariableInfo>, scope: Scope): nat
    decreases |vs|
  {
    if |vs| == 0 then 0
    else InitCount(vs[..|vs| - 1], scope) + (if InitialisedIn(vs[|vs| - 1], scope) then 1 else 0)
  }

  /** The INITVARs `initVars` emits for `scope`, in table order. */
  function InitInstrs(vs: seq<VariableInfo>, scope: Scope): (r: seq<Instr>)
    ensures |r| == InitCount(vs, scope)
    decreases |vs|
  {
    if |vs| == 0 then []
    else
      var v := vs[|vs| - 1];
      InitInstrs(vs[..|vs| - 1], scope) + (if InitialisedIn(v, scope) then [InitVar(ToU32(v.idx))] else [])
  }

  /**
   * Each variable of the scope gets the INITVAR of its own index, placed
   * after those of the variables of the scope that come before it in the
   * table.
   */
  lemma {:induction false} InitInstrsAt(vs: seq<VariableInfo>, scope: Scope, i: nat)
    requires i < |vs| && InitialisedIn(vs[i], scope)
    ensures InitCount(vs[..i], scope) < InitCount(vs, scope)
    ensures InitInstrs(vs, scope)[InitCount(vs[..i], scope)] == InitVar(ToU32(vs[i].idx))
    decreases |vs|
  {
    var init := vs[..|vs| - 1];
    if i == |vs| - 1 {
      assert vs[..i] == init;
    } else {
      assert init[..i] == vs[..i];
      InitInstrsAt(init, scope, i);
    }
  }

  /** `initVars` emits nothing but INITVARs. */
  lemma {:induction false} InitInstrsOnly(vs: seq<VariableInfo>, scope: Scope, k: nat)
    requires k < |InitInstrs(vs, scope)|
    ensures InitInstrs(vs, scope)[k].InitVar?
    decreases |vs|
  {
    var init := vs[..|vs| - 1];
    if k < |InitInstrs(init, scope)| {
      InitInstrsOnly(init, scope, k);
    }
  }

  // ---------------------------------------------------------------------
  // The prologue of a function (parser.cpp:1894-1937)
  // ---------------------------------------------------------------------

  /** ALLOCVARS for each parameter, the last parameter first. */
  function ParamAllocs(params: seq<u32>): (r: seq<Instr>)
    ensures |r| == |params|
    ensures forall k :: 0 <= k < |params| ==> r[k] == AllocVars(params[|params| - 1 - k])
    decreases |params|
  {
    if |params| == 0 then [] else ParamAllocs(params[1..]) + [AllocVars(params[0])]
  }

  /** ALLOCVAR for each local variable, in order of declaration. */
  function LocalAllocs(locals: seq<u32>): (r: seq<Instr>)
    ensures |r| == |locals|
    ensures forall k :: 0 <= k < |locals| ==> r[k] == AllocVar(locals[k])
    decreases |locals|
  {
    if |locals| == 0 then [] else LocalAllocs(locals[..|locals| - 1]) + [AllocVar(locals[|locals| - 1])]
  }

  /** The prologue of a typed function: the cell of its return value, then its parameters. */
  function Prologue(funVarPos: u32, params: seq<u32>, locals: seq<u32>): seq<Instr>
  {
    [AllocVar(funVarPos)] + ParamAllocs(params) + LocalAllocs(locals)
  }

  /** The indexes `n`, `n + 1`, … of `count` new entries, as `unsigned int`s. */
  function NewIndexes(n: nat, count: nat): (r: seq<u32>)
    ensures |r| == count && forall k :: 0 <= k < count ==> r[k] == ToU32(n + k)
    decreases count
  {
    if count == 0 then [] else NewIndexes(n, count - 1) + [ToU32(n + count - 1)]
  }

  /** The entries from `n` on are dynamic variables of `scope` with the types `ts`, in order. */
  predicate ParametersAt(vs: seq<VariableInfo>, n: nat, scope: Scope, ts: seq<string>)
  {
    n + |ts| <= |vs|
    && forall k :: n <= k < n + |ts| ==>
      vs[k].entityType == EntityType.DynamicVariable && vs[k].scope == scope && vs[k].typeString == ts[k - n]
  }

  /** A declaration of one more parameter extends the run of parameters by one. */
  lemma ParametersAtSnoc(vs: seq<VariableInfo>, n: nat, scope: Scope, ts: seq<string>, v: VariableInfo, t: string)
    requires ParametersAt(vs, n, scope, ts) && n + |ts| == |vs|
    requires v.entityType == EntityType.DynamicVariable && v.scope == scope && v.typeString == t
    ensures ParametersAt(vs + [v], n, scope, ts + [t])
  {
    var vs', ts' := vs + [v], ts + [t];
    forall k | n <= k < n + |ts'|
      ensures vs'[k].entityType == EntityType.DynamicVariable && vs'[k].scope == scope && vs'[k].typeString == ts'[k - n]
    {
      if k < n + |ts| {
        assert vs'[k] == vs[k] && ts'[k - n] == ts[k - n];
      }
    }
  }

  // ---------------------------------------------------------------------
  // The builtins and the prelude of `parse` (parser.cpp:2078-2134)
  // ---------------------------------------------------------------------

  const ROOT: Scope := ["0"]

  /** A builtin constant: a boolean of the root scope with no location. */
  function ConstantEntry(name: string): VariableInfo
  {
    NewVariable(EntityType.BuiltinVariable, ROOT, name, "b", "", NO_LOCATION)
  }

  /** A builtin function of the root scope: type "f", one parameter of type "f". */
  function BuiltinEntry(name: string): VariableInfo
  {
    NewVariable(EntityType.BuiltinFunction, ROOT, name, "f", "f", NO_LOCATION)
  }

  /** The parameter `x` of a builtin function, a dynamic float of the scope named after it. */
  function ParameterEntry(name: string): VariableInfo
  {
    NewVariable(EntityType.DynamicVariable, Symbols.Add(ROOT, name), "x", "f", "", NO_LOCATION)
  }

  /** The entries `parse` declares first, as they enter an empty table. */
  function BuiltinTable(): seq<VariableInfo>
  {
    [ ConstantEntry("true").(idx := 0), ConstantEntry("false").(idx := 1),
      BuiltinEntry("sin").(idx := 2), ParameterEntry("sin").(idx := 3),
      BuiltinEntry("cos").(idx := 4), ParameterEntry("cos").(idx := 5) ]
  }

  /**
   * The code of a builtin function with entry `fun` and parameter `par`:
   * allocate both, put the address of the result and the value of the
   * system call on the stack, store it and return.
   */
  function BuiltinCode(fun: u32, par: u32, name: string): seq<Instr>
  {
    BuiltinPrologue(fun, par) + BuiltinCall(fun, par, name)
  }

  /** The entry of a builtin function: its variable, its parameter block and the address of its result. */
  function BuiltinPrologue(fun: u32, par: u32): seq<Instr>
  {
    [AllocVar(fun), AllocVars(par), PutDAddr(fun)]
  }

  /** The body of a builtin function: the system call, the store of its result and the return. */
  function BuiltinCall(fun: u32, par: u32, name: string): seq<Instr>
  {
    [Syscall(par, name), Move, Return(fun)]
  }

  /** The first instructions of the program after its INITVARs: `true` and `false` get their values. */
  function Prelude(truePos: u32, falsePos: u32): seq<Instr>
  {
    ConstantInit(truePos, true) + ConstantInit(falsePos, false)
  }

  /** PUTADDR of a constant's entry, PUTBOOLEAN of its value, MOVE. */
  function ConstantInit(pos: u32, b: bool): seq<Instr>
  {
    [PutAddr(pos), PutBoolean(b), Move]
  }

  // ---------------------------------------------------------------------
  // The DATA section (parser.cpp:2144-2154)
  // ---------------------------------------------------------------------

  /**
   * The entry the DATA loop of `parse` writes for one table entry: DATA
   * for a static variable, DDATA (with its index) for a dynamic one, FUN
   * for a function, nothing for an undefined entry.
   */
  function DataFor(v: VariableInfo): seq<DataEntry>
  {
    match v.entityType
    case BuiltinVariable => [NewEntry(v.name, Join(v.scope, '.'), v.typeString, VariableType.Variable)]
    case Variable => [NewEntry(v.name, Join(v.scope, '.'), v.typeString, VariableType.Variable)]
    case DynamicVariable =>
      [NewDynamicEntry(v.name, Join(v.scope, '.'), v.typeString, ToU32(v.idx), VariableType.DynamicVariable)]
    case BuiltinFunction =>
      [NewFunctionEntry(v.name, Join(v.scope, '.'), v.typeString, v.funParams, VariableType.Function, v.functionRef)]
    case Function =>
      [NewFunctionEntry(v.name, Join(v.scope, '.'), v.typeString, v.funParams, VariableType.Function, v.functionRef)]
    case Undefined => []
  }

  /** The DATA section of a table, entry by entry. */
  function DataSection(vs: seq<VariableInfo>): seq<DataEntry>
    decreases |vs|
  {
    if |vs| == 0 then [] else DataSection(vs[..|vs| - 1]) + DataFor(vs[|vs| - 1])
  }

  /** No entry of the table is undefined. */
  predicate AllDefined(vs: seq<VariableInfo>)
  {
    forall i :: 0 <= i < |vs| ==> vs[i].entityType != EntityType.Undefined
  }

  /**
   * When no entry is undefined, the DATA section has one entry per table
   * entry, at the same index, with the same name and type and the scope
   * written out with dots: the index the compiler puts into PUTADDR is the
   * index of the DATA entry the machine reads.
   */
  lemma {:induction false} DataSectionAligned(vs: seq<VariableInfo>, i: nat)
    requires AllDefined(vs) && i < |vs|
    ensures |DataSection(vs)| == |vs|
    ensures DataSection(vs)[i] == DataFor(vs[i])[0]
    ensures DataSection(vs)[i].name == vs[i].name && DataSection(vs)[i].typeString == vs[i].typeString
    ensures DataSection(vs)[i].scope == Join(vs[i].scope, '.')
    decreases |vs|
  {
    var init := vs[..|vs| - 1];
    assert AllDefined(init) by {
      assert forall j :: 0 <= j < |init| ==> init[j] == vs[j];
    }
    if i < |init| {
      DataSectionAligned(init, i);
    } else if |init| > 0 {
      DataSectionAligned(init, 0);
    }
  }

  // ---------------------------------------------------------------------
  // Growth of the symbol table and of the function fix-ups
  // ---------------------------------------------------------------------

  /** The table only grows, and only by defined entries. */
  predicate TableGrows(vs0: seq<VariableInfo>, vs: seq<VariableInfo>)
  {
    vs0 <= vs && forall i :: |vs0| <= i < |vs| ==> vs[i].entityType != EntityType.Undefined
  }

  /** Every function fix-up names an entry below `n`. */
  predicate RefsBelow(refs: seq<FunctionRef>, n: nat)
  {
    forall k :: 0 <= k < |refs| ==> refs[k].variableIndex as int < n
  }

  lemma TableGrowsTransitive(a: seq<VariableInfo>, b: seq<VariableInfo>, c: seq<VariableInfo>)
    requires TableGrows(a, b) && TableGrows(b, c)
    ensures TableGrows(a, c)
  {
    assert c[..|a|] == c[..|b|][..|a|];
  }

  lemma TableGrowsDefined(a: seq<VariableInfo>, b: seq<VariableInfo>)
    requires TableGrows(a, b) && AllDefined(a)
    ensures AllDefined(b)
  {
    forall i | 0 <= i < |b| ensures b[i].entityType != EntityType.Undefined {
      if i < |a| {
        assert b[i] == a[i];
      }
    }
  }
  // ---------------------------------------------------------------------
  // Emitting the pieces
  // ---------------------------------------------------------------------

  /**
   * The code of one function from `start`: its prologue, a body of
   * `bodyLen` bytes, and RETURN of its entry.
   */
  predicate FunctionLaidOut(code: seq<byte>, start: nat, prologue: seq<Instr>, bodyLen: nat, funVarPos: u32)
  {
    LaidOut(code, start, Listing(prologue), bodyLen, Encode(Return(funVarPos)))
  }

  /** `code` holds `p` from `start`, then `bodyLen` bytes, then `r`. */
  predicate LaidOut(code: seq<byte>, start: nat, p: seq<byte>, bodyLen: nat, r: seq<byte>)
  {
    var body := start + |p|;
    var ret := body + bodyLen;
    ret + |r| <= |code| && code[start..body] == p && code[ret..ret + |r|] == r
  }

  /** The lay-out of a function is read off the pieces its code is appended from. */
  lemma FunctionLaidOutFrom(pre: seq<byte>, head: seq<Instr>, locals: seq<Instr>, body: seq<byte>, fvp: u32, nested: seq<byte>)
    ensures var code := pre + Listing(head) + Listing(locals) + body + Encode(Return(fvp)) + nested;
      FunctionLaidOut(code, |pre|, head + locals, |body|, fvp)
  {
    var code, r := pre + Listing(head) + Listing(locals) + body + Encode(Return(fvp)) + nested, Encode(Return(fvp));
    ListingAppend(head, locals);
    SeqAssoc(pre, Listing(head), Listing(locals));
    assert pre + Listing(head) + Listing(locals) == pre + Listing(head + locals);
    Slices(code, pre, Listing(head + locals), body, r, nested);
  }

  /** Where the pieces of a concatenation lie in it. */
  lemma Slices(code: seq<byte>, pre: seq<byte>, p: seq<byte>, body: seq<byte>, r: seq<byte>, post: seq<byte>)
    requires code == pre + p + body + r + post
    ensures LaidOut(code, |pre|, p, |body|, r)
  {
    var b := |pre| + |p| + |body|;
    assert forall k :: 0 <= k < |p| ==> code[|pre| + k] == p[k];
    assert forall k :: 0 <= k < |r| ==> code[b + k] == r[k];
  }

  /** A bound on the fix-ups survives the growth of the table. */
  lemma RefsBelowMono(refs: seq<FunctionRef>, n: nat, m: nat)
    requires RefsBelow(refs, n) && n <= m
    ensures RefsBelow(refs, m)
  {
  }

  lemma RefsBelowAppend(a: seq<FunctionRef>, b: seq<FunctionRef>, d: nat, n: nat)
    requires RefsBelow(a, n) && RefsBelow(b, n)
    ensures RefsBelow(a + ShiftedRefs(b, d), n)
  {
  }

  /**
   * The head of a typed function: ALLOCVAR of its entry, the cell of its
   * return value, registered as the function's entry point, then the
   * ALLOCVARS of its parameters.
   */
  method EmitFunctionHead(fbc: Bytecode, fvp: u32, params: seq<u32>)
    modifies fbc
    ensures fbc.code == old(fbc.code) + Listing([AllocVar(fvp)] + ParamAllocs(params))
    ensures fbc.functionRefs == old(fbc.functionRefs) + [FunctionRef(fvp, |old(fbc.code)|)]
    ensures fbc.variables == old(fbc.variables) && fbc.jumps == old(fbc.jumps)
    ensures old(fbc.Valid()) ==> fbc.Valid()
  {
    var codePos := fbc.Emit(AllocVar(fvp));
    fbc.AddFunction(fvp, codePos);
    EmitParamAllocs(fbc, params);
    ListingCons(AllocVar(fvp), ParamAllocs(params));
    SeqAssoc(old(fbc.code), Encode(AllocVar(fvp)), Listing(ParamAllocs(params)));
  }

  /** The loop of `function_definition` over the parameters, the last first: ALLOCVARS for each. */
  method EmitParamAllocs(fbc: Bytecode, params: seq<u32>)
    modifies fbc
    ensures fbc.code == old(fbc.code) + Listing(ParamAllocs(params))
    ensures fbc.variables == old(fbc.variables) && fbc.jumps == old(fbc.jumps) && fbc.functionRefs == old(fbc.functionRefs)
    ensures old(fbc.Valid()) ==> fbc.Valid()
  {
    var i := |params|;
    while i > 0
      invariant 0 <= i <= |params|
      invariant fbc.code == old(fbc.code) + Listing(ParamAllocs(params[i..]))
      invariant fbc.variables == old(fbc.variables) && fbc.jumps == old(fbc.jumps) && fbc.functionRefs == old(fbc.functionRefs)
      invariant old(fbc.Valid()) ==> fbc.Valid()
    {
      ghost var xs, code0 := ParamAllocs(params[i..]), fbc.code;
      assert params[i - 1..][1..] == params[i..];
      assert ParamAllocs(params[i - 1..]) == xs + [AllocVars(params[i - 1])];
      ListingSnoc(xs, AllocVars(params[i - 1]));
      var _ := fbc.Emit(AllocVars(params[i - 1]));
      assert fbc.code == code0 + Encode(AllocVars(params[i - 1]));
      SeqAssoc(old(fbc.code), Listing(xs), Encode(AllocVars(params[i - 1])));
      i := i - 1;
    }
  }

  /** The loop of `function_definition` over the function's variables: ALLOCVAR for each. */
  method EmitLocalAllocs(fbc: Bytecode, locals: seq<u32>)
    modifies fbc
    ensures fbc.code == old(fbc.code) + Listing(LocalAllocs(locals))
    ensures fbc.variables == old(fbc.variables) && fbc.jumps == old(fbc.jumps) && fbc.functionRefs == old(fbc.functionRefs)
    ensures old(fbc.Valid()) ==> fbc.Valid()
  {
    var i := 0;
    while i < |locals|
      invariant 0 <= i <= |locals|
      invariant fbc.code == old(fbc.code) + Listing(LocalAllocs(locals[..i]))
      invariant fbc.variables == old(fbc.variables) && fbc.jumps == old(fbc.jumps) && fbc.functionRefs == old(fbc.functionRefs)
      invariant old(fbc.Valid()) ==> fbc.Valid()
    {
      EmitLocalAlloc(fbc, locals, i, old(fbc.code));
      i := i + 1;
    }
    assert locals[..i] == locals;
  }

  /** One turn of the loop of `function_definition`: ALLOCVAR for the `i`-th variable. */
  method EmitLocalAlloc(fbc: Bytecode, locals: seq<u32>, i: nat, ghost c0: seq<byte>)
    requires i < |locals| && fbc.code == c0 + Listing(LocalAllocs(locals[..i]))
    modifies fbc
    ensures fbc.code == c0 + Listing(LocalAllocs(locals[..i + 1]))
    ensures fbc.variables == old(fbc.variables) && fbc.jumps == old(fbc.jumps) && fbc.functionRefs == old(fbc.functionRefs)
    ensures old(fbc.Valid()) ==> fbc.Valid()
  {
    ghost var xs := LocalAllocs(locals[..i]);
    assert locals[..i + 1][..i] == locals[..i];
    assert LocalAllocs(locals[..i + 1]) == xs + [AllocVar(locals[i])];
    ListingSnoc(xs, AllocVar(locals[i]));
    var _ := fbc.Emit(AllocVar(locals[i]));
    SeqAssoc(c0, Listing(xs), Encode(AllocVar(locals[i])));
  }

  /**
   * The end of `function_definition`: the function's variables are
   * allocated, then come the body, RETURN of the function's entry, and
   * the code of the functions defined inside it.
   */
  method EmitFunctionBody(fbc: Bytecode, locals: seq<u32>, body: Bytecode, fvp: u32, nested: Bytecode, ghost n: nat)
    returns (ghost bodyCode: seq<byte>, ghost nestedCode: seq<byte>)
    requires fbc != body && fbc != nested && body != nested
    requires fbc.Valid() && body.Valid() && nested.Valid()
    requires RefsBelow(fbc.functionRefs, n) && RefsBelow(body.functionRefs, n) && RefsBelow(nested.functionRefs, n)
    modifies fbc, body, nested
    ensures fbc.code == old(fbc.code) + Listing(LocalAllocs(locals)) + bodyCode + Encode(Return(fvp)) + nestedCode
    ensures |bodyCode| == |old(body.code)| && |nestedCode| == |old(nested.code)|
    ensures fbc.Valid() && old(fbc.jumps) <= fbc.jumps && fbc.variables == old(fbc.variables)
    ensures old(fbc.functionRefs) <= fbc.functionRefs && RefsBelow(fbc.functionRefs, n)
  {
    EmitLocalAllocs(fbc, locals);
    ghost var code1, jumps1, refs1 := fbc.code, fbc.jumps, fbc.functionRefs;
    fbc.Append(body);
    bodyCode := fbc.code[|code1|..];
    RefsBelowAppend(refs1, old(body.functionRefs), |code1|, n);
    ghost var code2, jumps2, refs2 := fbc.code, fbc.jumps, fbc.functionRefs;
    var _ := fbc.Emit(Return(fvp));
    ghost var code3 := fbc.code;
    fbc.Append(nested);
    nestedCode := fbc.code[|code3|..];
    RefsBelowAppend(refs2, old(nested.functionRefs), |code3|, n);
    PrefixTransitive(old(fbc.jumps), jumps1, jumps2);
    PrefixTransitive(old(fbc.functionRefs), refs1, refs2);
  }

  /** A builtin function of `parse`: its code and its fix-up. */
  method EmitBuiltinFunction(fbc: Bytecode, fun: u32, par: u32, name: string)
    modifies fbc
    ensures fbc.code == old(fbc.code) + Listing(BuiltinCode(fun, par, name))
    ensures fbc.functionRefs == old(fbc.functionRefs) + [FunctionRef(fun, |old(fbc.code)|)]
    ensures fbc.variables == old(fbc.variables) && fbc.jumps == old(fbc.jumps)
    ensures old(fbc.Valid()) ==> fbc.Valid()
  {
    ghost var head, tail := BuiltinPrologue(fun, par), BuiltinCall(fun, par, name);
    var funPos := EmitBuiltinPrologue(fbc, fun, par);
    EmitBuiltinCall(fbc, fun, par, name);
    ListingAppend(head, tail);
    SeqAssoc(old(fbc.code), Listing(head), Listing(tail));
    fbc.AddFunction(fun, funPos);
  }

  /** The first half of a builtin function: its entry, its parameter block and the address of its result. */
  method EmitBuiltinPrologue(fbc: Bytecode, fun: u32, par: u32) returns (funPos: nat)
    modifies fbc
    ensures funPos == |old(fbc.code)|
    ensures fbc.code == old(fbc.code) + Listing(BuiltinPrologue(fun, par))
    ensures fbc.variables == old(fbc.variables) && fbc.jumps == old(fbc.jumps) && fbc.functionRefs == old(fbc.functionRefs)
    ensures old(fbc.Valid()) ==> fbc.Valid()
  {
    ghost var c0 := fbc.code;
    funPos := fbc.Emit(AllocVar(fun));
    var _ := fbc.Emit(AllocVars(par));
    var _ := fbc.Emit(PutDAddr(fun));
    ListingOfThree(AllocVar(fun), AllocVars(par), PutDAddr(fun));
    SeqAssoc3(c0, Encode(AllocVar(fun)), Encode(AllocVars(par)), Encode(PutDAddr(fun)));
  }

  /** The second half of a builtin function: the system call, the store of its result and the return. */
  method EmitBuiltinCall(fbc: Bytecode, fun: u32, par: u32, name: string)
    modifies fbc
    ensures fbc.code == old(fbc.code) + Listing(BuiltinCall(fun, par, name))
    ensures fbc.variables == old(fbc.variables) && fbc.jumps == old(fbc.jumps) && fbc.functionRefs == old(fbc.functionRefs)
    ensures old(fbc.Valid()) ==> fbc.Valid()
  {
    ghost var c0 := fbc.code;
    var _ := fbc.EmitSyscall(par, name);
    var _ := fbc.Emit(Move);
    var _ := fbc.Emit(Return(fun));
    ListingOfThree(Syscall(par, name), Move, Return(fun));
    SeqAssoc3(c0, Encode(Syscall(par, name)), Encode(Move), Encode(Return(fun)));
  }

  /** The listing of three instructions is their encodings one after the other. */
  lemma ListingOfThree(x: Instr, y: Instr, z: Instr)
    ensures Listing([x, y, z]) == Encode(x) + Encode(y) + Encode(z)
  {
    ListingOfTwo(x, y);
    assert [x, y, z] == [x, y] + [z];
    ListingSnoc([x, y], z);
  }

  /** The listing of two instructions is their encodings one after the other. */
  lemma ListingOfTwo(x: Instr, y: Instr)
    ensures Listing([x, y]) == Encode(x) + Encode(y)
  {
    assert [x][..0] == [];
    assert [x, y] == [x] + [y];
    ListingSnoc([x], y);
  }

  /** Appending three pieces one by one is appending them together. */
  lemma SeqAssoc3(c: seq<byte>, a: seq<byte>, b: seq<byte>, d: seq<byte>)
    ensures c + a + b + d == c + (a + b + d)
  {
  }

  /** One turn of `initVars`' loop: INITVAR for the `i`-th entry when it belongs to `scope`. */
  method EmitInitVar(bc: Bytecode, vs: seq<VariableInfo>, i: nat, scope: Scope, ghost c0: seq<byte>)
    requires i < |vs| && bc.code == c0 + Listing(InitInstrs(vs[..i], scope))
    modifies bc
    ensures bc.code == c0 + Listing(InitInstrs(vs[..i + 1], scope))
    ensures bc.variables == old(bc.variables) && bc.jumps == old(bc.jumps) && bc.functionRefs == old(bc.functionRefs)
    ensures old(bc.Valid()) ==> bc.Valid()
  {
    ghost var xs := InitInstrs(vs[..i], scope);
    assert vs[..i + 1][..i] == vs[..i];
    var v := vs[i];
    if (v.entityType == EntityType.Variable || v.entityType == EntityType.DynamicVariable) && v.scope == scope {
      assert InitInstrs(vs[..i + 1], scope) == xs + [InitVar(ToU32(v.idx))];
      ListingSnoc(xs, InitVar(ToU32(v.idx)));
      var _ := bc.Emit(InitVar(ToU32(v.idx)));
      SeqAssoc(c0, Listing(xs), Encode(InitVar(ToU32(v.idx))));
    } else {
      assert InitInstrs(vs[..i + 1], scope) == xs + [];
      assert xs + [] == xs;
    }
  }

  /** The prelude of `parse`: `true` and `false` receive their values. */
  method EmitPrelude(bc: Bytecode, truePos: u32, falsePos: u32)
    modifies bc
    ensures bc.code == old(bc.code) + Listing(Prelude(truePos, falsePos))
    ensures bc.variables == old(bc.variables) && bc.jumps == old(bc.jumps) && bc.functionRefs == old(bc.functionRefs)
    ensures old(bc.Valid()) ==> bc.Valid()
  {
    EmitConstant(bc, truePos, true);
    EmitConstant(bc, falsePos, false);
    ListingAppend(ConstantInit(truePos, true), ConstantInit(falsePos, false));
    SeqAssoc(old(bc.code), Listing(ConstantInit(truePos, true)), Listing(ConstantInit(falsePos, false)));
  }

  /** One constant of the prelude: its address, its value, and the store. */
  method EmitConstant(bc: Bytecode, pos: u32, b: bool)
    modifies bc
    ensures bc.code == old(bc.code) + Listing(ConstantInit(pos, b))
    ensures bc.variables == old(bc.variables) && bc.jumps == old(bc.jumps) && bc.functionRefs == old(bc.functionRefs)
    ensures old(bc.Valid()) ==> bc.Valid()
  {
    ghost var c0 := bc.code;
    var _ := bc.Emit(PutAddr(pos));
    var _ := bc.Emit(PutBoolean(b));
    var _ := bc.Emit(Move);
    ListingOfThree(PutAddr(pos), PutBoolean(b), Move);
    SeqAssoc3(c0, Encode(PutAddr(pos)), Encode(PutBoolean(b)), Encode(Move));
  }
}
