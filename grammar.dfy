/**
 * The recursive-descent rules of the compiler (parser.cpp:436-2165).  A rule
 * reads the text at a cursor and appends the code of what it recognises to
 * a `Bytecode` as it goes: operands first, operators after them.  On
 * failure the cursor goes back to where the rule started; code already
 * appended stays, since the caller throws the buffer away on failure.
 */
module Grammar {
  import opened Encoding
  import opened Text
  import opened Symbols
  import opened Arrays
  import opened Instructions
  import opened Assembler
  import opened TypeRules
  import opened Lexer
  import opened Layout

  /** Whether an expression is the target of an assignment or a value. */
  datatype AssignPos = Left | Right

  // ---------------------------------------------------------------------
  // Numbers (std::stoll)
  // ---------------------------------------------------------------------

  function DigitValue(ch: char): nat
  {
    if IsDigit(ch) then ch as int - '0' as int else 0
  }

  /** The value of a string of decimal digits. */
  function Decimal(d: string): nat
  {
    if |d| == 0 then 0 else 10 * Decimal(d[..|d| - 1]) + DigitValue(d[|d| - 1])
  }

  /** `std::stoll` on a string of digits; `None` where it throws `out_of_range`. */
  function Stoll(d: string): (r: Option<i64>)
    ensures r.Some? ==> r.value == Decimal(d)
    ensures r.None? <==> Decimal(d) >= TWO63
  {
    if Decimal(d) < TWO63 then Some(Decimal(d) as i64) else None
  }

  /** A numeral with one more digit is ten times as much, plus that digit. */
  lemma DecimalAppend(d: string, ch: char)
    requires IsDigit(ch)
    ensures Decimal(d + [ch]) == 10 * Decimal(d) + (ch as int - '0' as int)
  {
    assert (d + [ch])[..|d|] == d;
  }

  /** The digit character of `d`. */
  function DigitChar(d: nat): char
    requires d < 10
  {
    ('0' as int + d) as char
  }

  /** `std::to_string` of a count: its decimal digits, with no leading zero. */
  function DecimalString(n: nat): (r: string)
    ensures |r| > 0 && forall k :: 0 <= k < |r| ==> IsDigit(r[k])
    ensures r[0] == '0' <==> n == 0
    decreases n
  {
    if n < 10 then [DigitChar(n)] else DecimalString(n / 10) + [DigitChar(n % 10)]
  }

  /** The numeral reads back as the count. */
  lemma {:induction false} DecimalStringRoundTrip(n: nat)
    ensures Decimal(DecimalString(n)) == n
    decreases n
  {
    if n < 10 {
      assert DecimalString(n) == [] + [DigitChar(n)];
      DecimalAppend([], DigitChar(n));
    } else {
      var q, d := n / 10, n % 10;
      assert DecimalString(n) == DecimalString(q) + [DigitChar(d)];
      DecimalStringRoundTrip(q);
      DecimalAppend(DecimalString(q), DigitChar(d));
      assert n == 10 * q + d;
    }
  }

  /** Different counts give different numerals, so the sub-scopes of a scope have different names. */
  lemma DecimalStringInjective(m: nat, n: nat)
    ensures DecimalString(m) == DecimalString(n) <==> m == n
  {
    DecimalStringRoundTrip(m);
    DecimalStringRoundTrip(n);
  }

  // ---------------------------------------------------------------------
  // Operators
  // ---------------------------------------------------------------------

  /**
   * A keyword operator (`and`, `or`, `not`) spelled at `p`, ignoring case,
   * and followed by a terminal, as a reserved word must be.
   */
  predicate KeywordAt(s: string, p: nat, w: string)
  {
    MatchesAt(s, p, w) && TerminalAt(s, p + |w|)
  }

  /**
   * The keyword operators as written: `check_string` alone, so the keyword
   * may be the start of a longer word.
   */
  predicate KeywordAsWritten(s: string, p: nat, w: string)
  {
    MatchesAt(s, p, w)
  }

  /**
   * As written, "order" starts with the operator `or`: in
   * `b = c\norder = false` the second statement is read as the operand of
   * `c or ...`.  A keyword followed by a terminal is not found there.
   */
  lemma KeywordAsWrittenMatchesInsideWord()
    ensures KeywordAsWritten("order", 0, "or") && !KeywordAt("order", 0, "or")
  {
    assert !TerminalAt("order", 2) by { assert "order"[2] == 'd'; }
  }

  /** As written, `and` is found at the start of "andy". */
  lemma AndAsWrittenMatchesInsideWord()
    ensures KeywordAsWritten("andy", 0, "and") && !KeywordAt("andy", 0, "and")
  {
    assert !TerminalAt("andy", 3) by { assert "andy"[3] == 'y'; }
  }

  /** As written, the unary `not` is found at the start of "note". */
  lemma NotAsWrittenMatchesInsideWord()
    ensures KeywordAsWritten("note", 0, "not") && !KeywordAt("note", 0, "not")
  {
    assert !TerminalAt("note", 3) by { assert "note"[3] == 'e'; }
  }

  /** A keyword followed by a terminal is a keyword as written too. */
  lemma KeywordAtIsKeywordAsWritten(s: string, p: nat, w: string)
    ensures KeywordAt(s, p, w) ==> KeywordAsWritten(s, p, w)
    ensures KeywordAsWritten(s, p, w) && TerminalAt(s, p + |w|) ==> KeywordAt(s, p, w)
  {
  }

  /**
   * The keyword operator reader, as written: `check_string` alone
   * (parser.cpp:822, 1240, 1290), so the keyword may be the start of a
   * longer word.
   */
  method KeywordOperator(s: string, c: CodeLocation, w: string) returns (found: bool, c': CodeLocation)
    requires InText(s, c)
    ensures found == KeywordAsWritten(s, c.pos, w)
    ensures c' == if found then Plus(c, |w|) else c
    ensures InText(s, c')
  {
    found, c' := CheckString(s, c, w);
  }

  /** The comparison instructions and how each is spelled. */
  function ComparisonText(op: Instr): string
  {
    match op
    case Equal => "=="
    case NotEqual => "!="
    case LessEqual => "<="
    case GreaterEqual => ">="
    case Less => "<"
    case Greater => ">"
    case _ => ""
  }

  predicate IsComparison(op: Instr)
  {
    op.Equal? || op.NotEqual? || op.LessEqual? || op.GreaterEqual? || op.Less? || op.Greater?
  }

  /**
   * `relation_operator`: the two-character operators are tried first, so a
   * one-character `<` or `>` is read only when no '=' follows.  The
   * character after the first is looked at through `CodeLocation::operator+`,
   * whose only field read here is the offset.
   */
  method RelationOperator(s: string, c: CodeLocation) returns (found: bool, op: Instr, c': CodeLocation)
    requires InText(s, c)
    ensures InText(s, c')
    ensures var w := SkipWhitespace(s, c);
      found <==> CheckSymbol(s, w, '<') || CheckSymbol(s, w, '>')
                 || ((CheckSymbol(s, w, '=') || CheckSymbol(s, w, '!')) && CheckSymbol(s, Plus(w, 1), '='))
    ensures found ==> var w := SkipWhitespace(s, c);
      IsComparison(op) && c' == Plus(w, |ComparisonText(op)|) && s[w.pos..c'.pos] == ComparisonText(op)
      && (|ComparisonText(op)| == 1 ==> !CheckSymbol(s, Plus(w, 1), '='))
    ensures !found ==> c' == c
  {
    var w := Whitespace(s, c);
    var next := CheckSymbol(s, Plus(w, 1), '=');
    if CheckSymbol(s, w, '=') && next {
      return true, Equal, Plus(w, 2);
    } else if CheckSymbol(s, w, '!') && next {
      return true, NotEqual, Plus(w, 2);
    } else if CheckSymbol(s, w, '<') && next {
      return true, LessEqual, Plus(w, 2);
    } else if CheckSymbol(s, w, '>') && next {
      return true, GreaterEqual, Plus(w, 2);
    } else if CheckSymbol(s, w, '<') {
      return true, Less, Plus(w, 1);
    } else if CheckSymbol(s, w, '>') {
      return true, Greater, Plus(w, 1);
    }
    return false, Nop, c;
  }

  /** The second character of a two-character operator is found the same way through either form of `operator+`. */
  lemma PlusAsWrittenReadsSameSymbol(s: string, w: CodeLocation, ch: char)
    ensures CheckSymbol(s, PlusAsWritten(w, 1), ch) == CheckSymbol(s, Plus(w, 1), ch)
  {
  }

  /** The assignment instructions and how each is spelled. */
  function AssignmentText(op: Instr): string
  {
    match op
    case Move => "="
    case MoveAdd => "+="
    case MoveSubtr => "-="
    case MoveMul => "*="
    case MoveDiv => "/="
    case _ => ""
  }

  predicate IsAssignment(op: Instr)
  {
    op.Move? || op.MoveAdd? || op.MoveSubtr? || op.MoveMul? || op.MoveDiv?
  }

  /** `assignment_operator`: `=` is tried first, then the compound forms. */
  method AssignmentOperator(s: string, c: CodeLocation) returns (found: bool, op: Instr, c': CodeLocation)
    requires InText(s, c)
    ensures InText(s, c')
    ensures var w := SkipWhitespace(s, c);
      found <==> CheckSymbol(s, w, '=')
                 || ((CheckSymbol(s, w, '+') || CheckSymbol(s, w, '-') || CheckSymbol(s, w, '*') || CheckSymbol(s, w, '/'))
                     && CheckSymbol(s, Plus(w, 1), '='))
    ensures found ==> var w := SkipWhitespace(s, c);
      IsAssignment(op) && c' == Plus(w, |AssignmentText(op)|) && s[w.pos..c'.pos] == AssignmentText(op)
    ensures !found ==> c' == c
  {
    var w := Whitespace(s, c);
    var next := CheckSymbol(s, Plus(w, 1), '=');
    if CheckSymbol(s, w, '=') {
      return true, Move, Plus(w, 1);
    } else if CheckSymbol(s, w, '+') && next {
      return true, MoveAdd, Plus(w, 2);
    } else if CheckSymbol(s, w, '-') && next {
      return true, MoveSubtr, Plus(w, 2);
    } else if CheckSymbol(s, w, '*') && next {
      return true, MoveMul, Plus(w, 2);
    } else if CheckSymbol(s, w, '/') && next {
      return true, MoveDiv, Plus(w, 2);
    }
    return false, Nop, c;
  }

  /**
   * `mult_operator` and `additive_operator`: the character `first` gives
   * `firstOp`, otherwise the character `second` gives `secondOp`.
   */
  method ArithOperator(s: string, c: CodeLocation, first: char, firstOp: Instr, second: char, secondOp: Instr)
    returns (found: bool, op: Instr, c': CodeLocation)
    requires InText(s, c)
    ensures InText(s, c')
    ensures var w := SkipWhitespace(s, c);
      found <==> CheckSymbol(s, w, first) || CheckSymbol(s, w, second)
    ensures found ==> var w := SkipWhitespace(s, c);
      c' == Plus(w, 1) && op == (if CheckSymbol(s, w, first) then firstOp else secondOp)
    ensures !found ==> c' == c
  {
    var w := Whitespace(s, c);
    if CheckSymbol(s, w, first) {
      return true, firstOp, Plus(w, 1);
    }
    if CheckSymbol(s, w, second) {
      return true, secondOp, Plus(w, 1);
    }
    return false, Nop, c;
  }

  /**
   * `unary_operator`: '-' (operand type "n", either kind of number) or the
   * keyword `not` (operand type "b").
   */
  method UnaryOperator(s: string, c: CodeLocation) returns (found: bool, opType: string, c': CodeLocation)
    requires InText(s, c)
    ensures InText(s, c')
    ensures var w := SkipWhitespace(s, c);
      found <==> CheckSymbol(s, w, '-') || KeywordAsWritten(s, w.pos, "not")
    ensures found ==> var w := SkipWhitespace(s, c);
      if CheckSymbol(s, w, '-') then opType == "n" && c' == Plus(w, 1) else opType == "b" && c' == Plus(w, 3)
    ensures !found ==> c' == c
  {
    var w := Whitespace(s, c);
    if CheckSymbol(s, w, '-') {
      return true, "n", Plus(w, 1);
    }
    var k, p := KeywordOperator(s, w, "not");
    if k {
      return true, "b", p;
    }
    return false, "", c;
  }

  // ---------------------------------------------------------------------
  // Type facts of the expression rules
  // ---------------------------------------------------------------------

  /** The type letter of a literal instruction. */
  function LiteralType(ins: Instr): string
  {
    match ins
    case PutString(_) => "s"
    case PutFloat(_) => "f"
    case PutInt(_) => "i"
    case PutBoolean(_) => "b"
    case _ => UNKNOWN_DATATYPE
  }

  /** A boolean literal at `w` with value `b`, as `boolean_value` reads it. */
  predicate BooleanAt(s: string, w: CodeLocation, b: bool)
    requires InText(s, w)
  {
    if b then MatchesAt(s, w.pos, "true") && TerminalAt(s, w.pos + 4)
    else !MatchesAt(s, w.pos, "true") && MatchesAt(s, w.pos, "false") && TerminalAt(s, w.pos + 5)
  }

  /** No literal of any kind begins at `w`. */
  predicate NoLiteral(s: string, w: CodeLocation)
    requires InText(s, w)
  {
    !CheckSymbol(s, w, '"') && !FloatStarted(s, w) && IntegerEnd(s, w).None?
    && !BooleanAt(s, w, true) && !BooleanAt(s, w, false)
  }

  /**
   * The literal `ins` is what the text at `w` holds, the kinds tried in the
   * order string, float, integer, boolean; `image` is the memory image of
   * the `long double` that `stold` reads from a numeral.
   */
  predicate LiteralText(s: string, w: CodeLocation, ins: Instr, image: string -> Block12)
    requires InText(s, w)
  {
    match ins
    case PutString(v) =>
      CheckSymbol(s, w, '"') && StringBodyEnd(s, w.pos + 1) < |s| && v == s[w.pos + 1..StringBodyEnd(s, w.pos + 1)]
    case PutFloat(bits) =>
      !CheckSymbol(s, w, '"') && FloatEnd(s, w).Some? && bits == image(s[w.pos..FloatEnd(s, w).value.pos])
    case PutInt(i) =>
      !CheckSymbol(s, w, '"') && !FloatStarted(s, w) && IntegerEnd(s, w).Some?
      && Stoll(s[w.pos..IntegerEnd(s, w).value.pos]) == Some(i)
    case PutBoolean(b) =>
      !CheckSymbol(s, w, '"') && !FloatStarted(s, w) && IntegerEnd(s, w).None? && BooleanAt(s, w, b)
    case _ => false
  }

  /** The operand checks of an assignment operator (parser.cpp:1518-1551). */
  predicate AssignmentAllowed(op: Instr, l: string, r: string)
  {
    ConsistentAssignment(l, r)
    && match op
       case MoveAdd | MoveSubtr =>
         (IsNumeric(l) && IsNumeric(r)) || (Head(l) == 's' && Head(r) == 's') || (Head(l) == 'a' && Head(r) == 'a')
       case MoveMul | MoveDiv => IsNumeric(l) && IsNumeric(r)
       case _ => true
  }

  /** An int target never receives a float, whatever the operator. */
  lemma AssignmentRejectsNarrowing(op: Instr)
    ensures !AssignmentAllowed(op, "i", "f")
    ensures AssignmentAllowed(op, "f", "i") <==> IsNumeric("f")
  {
  }

  /** All the operands are numbers. */
  predicate AllNumeric(ts: seq<string>)
  {
    forall k :: 0 <= k < |ts| ==> IsNumeric(ts[k])
  }

  /** All the operands are strings. */
  predicate AllStrings(ts: seq<string>)
  {
    forall k :: 0 <= k < |ts| ==> ts[k] == "s"
  }

  /** The operands of a sum: all numbers or all strings. */
  predicate Summable(ts: seq<string>)
  {
    AllNumeric(ts) || AllStrings(ts)
  }

  /** A chain of strings is a string. */
  lemma {:induction false} ChainTypeStrings(ts: seq<string>)
    requires |ts| > 0 && AllStrings(ts)
    ensures ChainType(ts) == "s"
    decreases |ts|
  {
    var init := ts[..|ts| - 1];
    if |init| > 0 {
      assert AllStrings(init) by {
        forall k | 0 <= k < |init| ensures init[k] == "s" { assert init[k] == ts[k]; }
      }
      ChainTypeStrings(init);
    }
  }

  lemma ChainTypeSnoc(ts: seq<string>, t: string)
    ensures ChainType(ts + [t]) == MaxDatatype(ChainType(ts), t)
  {
    assert (ts + [t])[..|ts|] == ts;
  }

  lemma AllNumericSnoc(ts: seq<string>, t: string)
    requires AllNumeric(ts) && IsNumeric(t)
    ensures AllNumeric(ts + [t])
  {
  }

  lemma AllStringsSnoc(ts: seq<string>, t: string)
    requires AllStrings(ts) && t == "s"
    ensures AllStrings(ts + [t])
  {
  }

  /** The loop of the multiplicative rule keeps the chain's type and its numeric operands. */
  lemma ProductSnoc(ts: seq<string>, pre: string, t: string)
    requires pre == ChainType(ts) && (|ts| > 1 ==> AllNumeric(ts))
    requires |ts| > 0 ==> IsNumeric(pre) && IsNumeric(t)
    ensures MaxDatatype(pre, t) == ChainType(ts + [t])
    ensures |ts| > 0 ==> AllNumeric(ts + [t])
  {
    ChainTypeSnoc(ts, t);
    if |ts| == 1 {
      assert ChainType(ts) == ts[0];
    }
  }

  /**
   * The loop of the additive rule keeps the chain's type and operands that
   * are all numbers or all strings.
   */
  lemma SumSnoc(ts: seq<string>, pre: string, t: string)
    requires pre == ChainType(ts) && (|ts| > 1 ==> Summable(ts))
    requires |ts| > 0 ==> (IsNumeric(pre) && IsNumeric(t)) || (pre == "s" && t == "s")
    ensures MaxDatatype(pre, t) == ChainType(ts + [t])
    ensures |ts| > 0 ==> Summable(ts + [t])
  {
    ChainTypeSnoc(ts, t);
    if |ts| == 1 {
      assert ChainType(ts) == ts[0];
      if IsNumeric(t) {
        AllNumericSnoc(ts, t);
      } else {
        AllStringsSnoc(ts, t);
      }
    } else if |ts| > 1 {
      if AllNumeric(ts) {
        ChainTypeNumeric(ts);
        AllNumericSnoc(ts, t);
      } else {
        ChainTypeStrings(ts);
        AllStringsSnoc(ts, t);
      }
    }
  }

  lemma JoinSnoc(ts: seq<string>, t: string, sep: char)
    requires |ts| > 0
    ensures Join(ts + [t], sep) == Join(ts, sep) + [sep] + t
  {
    assert (ts + [t])[..|ts|] == ts;
  }

  // ---------------------------------------------------------------------
  // Code facts
  // ---------------------------------------------------------------------

  /** A word inside a prefix reads the same in the longer code. */
  lemma PrefixWord(a: seq<byte>, b: seq<byte>, p: nat)
    requires a <= b && p + 4 <= |a|
    ensures Assembler.WordAt(b, p) == Assembler.WordAt(a, p)
  {
    assert b[p..p + 4] == a[p..p + 4];
  }

  /** Patching a word past the end of a prefix keeps the prefix. */
  lemma SetWordKeepsPrefix(a: seq<byte>, code: seq<byte>, p: nat, v: u32)
    requires a <= code && |a| <= p && p + 4 <= |code|
    ensures a <= SetWord(code, p, v)
  {
    SetWordOnlyThere(code, p, v);
    assert SetWord(code, p, v)[..|a|] == a;
  }

  /**
   * The branches of a `?:` expression, once its jumps are patched: where
   * the JUMPIFFALSE and the JUMP are, the slots of the relocation list that
   * hold their operands, and the types of the branches.
   */
  datatype Branches = NoBranches
    | Branches(jumpIfFalse: nat, jump: nat, jumpIfFalseSlot: nat, jumpSlot: nat, trueType: string, falseType: string)

  /**
   * The code of a `?:` expression up to the ':': a JUMPIFFALSE at `jf`
   * whose operand points just past the JUMP at `jmp`, which ends the code;
   * both operands are registered for relocation at slots `kf` and `kj`.
   */
  predicate TrueBranchDone(code: seq<byte>, jumps: seq<nat>, startLen: nat, jf: nat, jmp: nat, kf: nat, kj: nat)
  {
    startLen <= jf && jf + 5 <= jmp && jmp + 5 == |code|
    && code[jf] == JUMPIFFALSE && Assembler.WordAt(code, jf + 1) == U32(jmp + 5) && code[jmp] == JUMP
    && kf < |jumps| && jumps[kf] == jf + 1 && kj < |jumps| && jumps[kj] == jmp + 1
  }

  /**
   * The jumps of a `?:` expression whose code ends at `|code|`: a
   * JUMPIFFALSE to the start of the false branch, right after the JUMP
   * that ends the true branch, which jumps to the end; both operands are
   * registered for relocation.
   */
  predicate Patched(code: seq<byte>, jumps: seq<nat>, startLen: nat, b: Branches)
    requires b.Branches?
  {
    startLen <= b.jumpIfFalse && b.jumpIfFalse + 5 <= b.jump && b.jump + 5 <= |code|
    && code[b.jumpIfFalse] == JUMPIFFALSE && Assembler.WordAt(code, b.jumpIfFalse + 1) == U32(b.jump + 5)
    && code[b.jump] == JUMP && Assembler.WordAt(code, b.jump + 1) == U32(|code|)
    && b.jumpIfFalseSlot < |jumps| && jumps[b.jumpIfFalseSlot] == b.jumpIfFalse + 1
    && b.jumpSlot < |jumps| && jumps[b.jumpSlot] == b.jump + 1
  }

  /**
   * The effect of an expression rule on the code buffer: the code only
   * grows at its end (a rule patches only jump words it emitted itself) and
   * the fix-up list only grows, both still describing the code.
   */
  predicate Extends(bc: Bytecode, code0: seq<byte>, jumps0: seq<nat>)
    reads bc
  {
    bc.Valid() && code0 <= bc.code && jumps0 <= bc.jumps
  }

  /** The bytes at the end of `code` are those of `ins`. */
  predicate EndsWith(code: seq<byte>, ins: Instr)
  {
    |Encode(ins)| <= |code| && code[|code| - |Encode(ins)|..] == Encode(ins)
  }

  /**
   * Neither builtin function nor its parameter is in the table before it
   * is declared, when the table started empty.
   */
  lemma BuiltinPrefixFresh(vs: seq<VariableInfo>)
    ensures vs == BuiltinTable()[..2] ==>
      FindSame(vs, BuiltinEntry("sin")).None? && FindSame(vs, ParameterEntry("sin")).None?
    ensures vs == BuiltinTable()[..4] ==>
      FindSame(vs, BuiltinEntry("cos")).None? && FindSame(vs, ParameterEntry("cos")).None?
  {
    var t := BuiltinTable();
    if vs == t[..2] {
      forall j | 0 <= j < 2 ensures !SameVariable(vs[j], BuiltinEntry("sin")) && !SameVariable(vs[j], ParameterEntry("sin")) {
        assert j == 0 || j == 1;
      }
    }
    if vs == t[..4] {
      forall j | 0 <= j < 4 ensures !SameVariable(vs[j], BuiltinEntry("cos")) && !SameVariable(vs[j], ParameterEntry("cos")) {
        assert j == 0 || j == 1 || j == 2 || j == 3;
      }
    }
  }

  /**
   * The code of the text, then that of the functions, appended to `bc`;
   * every function fix-up still names an entry below `n`.
   */
  method AppendUnits(bc: Bytecode, tbc: Bytecode, fbc: Bytecode, ghost n: nat)
    returns (ghost body: seq<byte>, ghost text: CodeUnit, ghost funs: CodeUnit)
    requires bc != tbc && bc != fbc && tbc != fbc
    requires bc.Valid() && tbc.Valid() && fbc.Valid()
    requires RefsBelow(bc.functionRefs, n) && RefsBelow(tbc.functionRefs, n) && RefsBelow(fbc.functionRefs, n)
    modifies bc, tbc, fbc
    ensures bc.Valid() && bc.variables == old(bc.variables)
    ensures text == CodeUnit(old(tbc.code), old(tbc.jumps)) && funs == CodeUnit(old(fbc.code), old(fbc.jumps))
    ensures Linked(bc.code, old(bc.code), body, text, funs)
    ensures RefsBelow(bc.functionRefs, n)
  {
    ghost var code0 := bc.code;
    text, funs := CodeUnit(tbc.code, tbc.jumps), CodeUnit(fbc.code, fbc.jumps);
    bc.Append(tbc);
    ghost var refs1, frefs, mid := bc.functionRefs, fbc.functionRefs, bc.code;
    RefsBelowAppend(old(bc.functionRefs), old(tbc.functionRefs), |code0|, n);
    bc.Append(fbc);
    RefsBelowAppend(refs1, frefs, |mid|, n);
    LinkedAfterHead(bc.code, code0, text, funs);
    body := bc.code[|code0|..];
  }

  /** Code with the offsets of its jump fix-ups, as a bytecode holds it before it is appended. */
  datatype CodeUnit = CodeUnit(code: seq<byte>, jumps: seq<nat>)

  /**
   * `code` is `head` followed by `body`, and `body` is the code of the unit
   * `text` then that of the unit `funs`, each relocated to its place.
   */
  predicate Linked(code: seq<byte>, head: seq<byte>, body: seq<byte>, text: CodeUnit, funs: CodeUnit)
  {
    InRange(text.code, text.jumps) && InRange(funs.code, funs.jumps) && code == head + body
    && body == Relocated(text.code, text.jumps, |head|) + Relocated(funs.code, funs.jumps, |head| + |text.code|)
  }

  /** Code made of a head and two relocated units is linked, its body being what follows the head. */
  lemma LinkedAfterHead(code: seq<byte>, head: seq<byte>, text: CodeUnit, funs: CodeUnit)
    requires InRange(text.code, text.jumps) && InRange(funs.code, funs.jumps)
    requires code == head + Relocated(text.code, text.jumps, |head|) + Relocated(funs.code, funs.jumps, |head| + |text.code|)
    ensures |head| <= |code| && Linked(code, head, code[|head|..], text, funs)
  {
    AfterHead(code, head, Relocated(text.code, text.jumps, |head|), Relocated(funs.code, funs.jumps, |head| + |text.code|));
  }

  /** Code made of a head and two parts is the head followed by the two parts. */
  lemma AfterHead(code: seq<byte>, head: seq<byte>, r1: seq<byte>, r2: seq<byte>)
    requires code == head + r1 + r2
    ensures |head| <= |code| && code[|head|..] == r1 + r2 && code == head + code[|head|..]
  {
    assert code == head + (r1 + r2);
  }

  /** `bytecode += statement_bytecode` for a statement's code, which registers no function. */
  method Absorb(bc: Bytecode, sbc: Bytecode)
    requires bc != sbc && bc.Valid() && sbc.Valid() && sbc.functionRefs == []
    modifies bc, sbc
    ensures Extends(bc, old(bc.code), old(bc.jumps)) && bc.variables == old(bc.variables) && bc.functionRefs == old(bc.functionRefs)
    ensures bc.code == old(bc.code) + Relocated(old(sbc.code), old(sbc.jumps), |old(bc.code)|)
  {
    bc.Append(sbc);
  }

  /** `function_bytecode += ...`: every function fix-up still names an entry below `n`. */
  method AbsorbFunctions(fbc: Bytecode, other: Bytecode, ghost n: nat)
    requires fbc != other && fbc.Valid() && other.Valid()
    requires RefsBelow(fbc.functionRefs, n) && RefsBelow(other.functionRefs, n)
    modifies fbc, other
    ensures Extends(fbc, old(fbc.code), old(fbc.jumps)) && fbc.variables == old(fbc.variables)
    ensures fbc.code == old(fbc.code) + Relocated(old(other.code), old(other.jumps), |old(fbc.code)|)
    ensures old(fbc.functionRefs) <= fbc.functionRefs && RefsBelow(fbc.functionRefs, n)
  {
    fbc.Append(other);
    RefsBelowAppend(old(fbc.functionRefs), old(other.functionRefs), |old(fbc.code)|, n);
  }

  /** All the operands are booleans. */
  predicate AllBooleans(ts: seq<string>)
  {
    forall k :: 0 <= k < |ts| ==> ts[k] == "b"
  }

  /** An identifier that is not a reserved word starts at `c`, after white space. */
  predicate NameAt(s: string, c: CodeLocation)
    requires InText(s, c)
  {
    Lexer.WordAt(s, c).Some? && !IsReservedWord(Lexer.WordAt(s, c).value.0)
  }

  /** The entry the inheriting lookup finds for the name at `c`, if any. */
  function Lookup(vs: seq<VariableInfo>, scope: Scope, s: string, c: CodeLocation): Option<VariableInfo>
    requires InText(s, c) && NameAt(s, c)
  {
    var r := InheritedAmong(vs, scope, Lexer.WordAt(s, c).value.0, |vs|);
    if r.Some? then Some(vs[r.value]) else None
  }

  /** The entities that name a value: the primary rule puts their address on the stack. */
  predicate IsVariableKind(t: EntityType)
  {
    t == BuiltinVariable || t == Variable || t == DynamicVariable
  }

  /** The entities that name a function. */
  predicate IsFunctionKind(t: EntityType)
  {
    t == BuiltinFunction || t == Function
  }

  /**
   * The type of an array value indexed once for each of `indexings` (the
   * comma-joined argument types of each `[...]`), `None` where an index
   * list does not fit the array type.
   */
  function ElementType(t: string, indexings: seq<string>): Option<string>
    decreases |indexings|
  {
    if |indexings| == 0 then Some(t)
    else match ElementType(t, indexings[..|indexings| - 1])
      case None => None
      case Some(u) =>
        var pr := ProcessArrayDatatype(u, indexings[|indexings| - 1]);
        if pr.0 then Some(pr.1) else None
  }

  /**
   * Indexing a declared array type with the index types it was declared
   * with yields its element type; an array of arrays is indexed twice.
   */
  lemma ElementTypeOfDeclared(ts: seq<char>, e: TypeDecl)
    requires ValidDecl(ArrayOf(ts, e))
    ensures ElementType(TypeString(ArrayOf(ts, e)), [JoinTypes(ts)]) == Some(TypeString(e))
  {
    assert [JoinTypes(ts)][..0] == [];
    ProcessArrayDatatypeOfDeclared(JoinTypes(ts), TypeString(e));
  }

  lemma ElementTypeSnoc(t: string, indexings: seq<string>, idx: string, u: string)
    requires ElementType(t, indexings) == Some(u) && ProcessArrayDatatype(u, idx).0
    ensures ElementType(t, indexings + [idx]) == Some(ProcessArrayDatatype(u, idx).1)
  {
    assert (indexings + [idx])[..|indexings|] == indexings;
  }

  /** `Scope::reduce` applied `n` times. */
  function ReduceTimes(scope: Scope, n: nat): Scope
  {
    if n == 0 then scope else Reduce(ReduceTimes(scope, n - 1))
  }

  /** `n` dots at `p`. */
  predicate DotsAt(s: string, p: nat, n: nat)
  {
    p + n <= |s| && forall k :: p <= k < p + n ==> s[k] == '.'
  }

  /** How a postfix expression began. */
  datatype PostfixForm = Literal(ins: Instr) | Parenthesized | Named(dots: nat, entity: VariableInfo)

  /** `bytecode += buffer` where the buffer holds one instruction and no fix-ups. */
  method AppendInstruction(bc: Bytecode, buffer: Bytecode, ghost ins: Instr)
    requires buffer != bc && bc.Valid()
    requires buffer.code == Encode(ins) && buffer.jumps == [] && buffer.functionRefs == []
    modifies bc, buffer
    ensures bc.code == old(bc.code) + Encode(ins) && bc.Valid()
    ensures bc.jumps == old(bc.jumps) && bc.variables == old(bc.variables) && bc.functionRefs == old(bc.functionRefs)
  {
    bc.Append(buffer);
  }

  /** A jump with a zero target, its word registered for relocation. */
  method EmitJump(bc: Bytecode, ins: Instr) returns (pos: nat)
    requires bc.Valid() && (ins == JumpIfFalse(0) || ins == Jump(0))
    modifies bc
    ensures pos == |old(bc.code)| && bc.code == old(bc.code) + Encode(ins) && |bc.code| == pos + 5
    ensures bc.code[pos] == Opcode(ins) && bc.jumps == old(bc.jumps) + [pos + 1]
    ensures Extends(bc, old(bc.code), old(bc.jumps)) && bc.variables == old(bc.variables) && bc.functionRefs == old(bc.functionRefs)
  {
    pos := bc.Emit(ins);
    EncodeLength(ins);
    bc.AddJump(pos + 1);
  }

  /** Patching the jump word at `at` with `val`, past the end of `keep`. */
  method Patch(bc: Bytecode, at: nat, val: u32, ghost keep: seq<byte>)
    requires bc.Valid() && at + 4 <= |bc.code| && keep <= bc.code && |keep| <= at
    modifies bc
    ensures bc.code == SetWord(old(bc.code), at, val) && Assembler.WordAt(bc.code, at) == val
    ensures forall k :: 0 <= k < |bc.code| && !(at <= k < at + 4) ==> bc.code[k] == old(bc.code)[k]
    ensures keep <= bc.code && bc.Valid()
    ensures bc.jumps == old(bc.jumps) && bc.variables == old(bc.variables) && bc.functionRefs == old(bc.functionRefs)
  {
    ghost var code0 := bc.code;
    bc.SetAddress(at, val);
    SetWordKeepsPrefix(keep, code0, at, val);
    SetWordReadsBack(code0, at, val);
  }

  /**
   * The end of the first branch of `? :`: JUMP, then ':' after white
   * space, after which the JUMPIFFALSE at `jf` is patched to jump to the
   * code that follows.  The code up to `keep` stays as it was.
   */
  method CloseTrueBranch(s: string, c: CodeLocation, bc: Bytecode, jf: nat, ghost kf: nat, ghost keep: seq<byte>)
    returns (ok: bool, c': CodeLocation)
    requires InText(s, c) && bc.Valid() && keep <= bc.code && |keep| <= jf && jf + 5 <= |bc.code|
    requires bc.code[jf] == JUMPIFFALSE && kf < |bc.jumps| && bc.jumps[kf] == jf + 1
    modifies bc
    ensures ok <==> CheckSymbol(s, SkipWhitespace(s, c), ':')
    ensures InText(s, c') && (ok ==> c' == Plus(SkipWhitespace(s, c), 1)) && (!ok ==> c' == c)
    ensures Extends(bc, keep, old(bc.jumps)) && bc.variables == old(bc.variables) && bc.functionRefs == old(bc.functionRefs)
    ensures |bc.code| == |old(bc.code)| + 5 && |bc.jumps| == |old(bc.jumps)| + 1
    ensures ok ==> TrueBranchDone(bc.code, bc.jumps, |keep|, jf, |bc.code| - 5, kf, |bc.jumps| - 1)
  {
    var q := Whitespace(s, c);
    ghost var code1 := bc.code;
    var jmp := EmitJump(bc, Jump(0));
    PrefixTransitive(keep, code1, bc.code);
    assert bc.code[jf] == code1[jf];
    if !CheckSymbol(s, q, ':') {
      return false, c;
    }
    code1 := bc.code;
    Patch(bc, jf + 1, U32(|bc.code|), keep);
    assert bc.code[jf] == code1[jf] && bc.code[jmp] == code1[jmp];
    return true, Plus(q, 1);
  }

  /**
   * The end of a `?:` expression: the JUMP at `jmp` that ends the first
   * branch is patched to jump to the end of the code.
   */
  method CloseAlternatives(bc: Bytecode, jf: nat, jmp: nat, ghost kf: nat, ghost kj: nat, ghost keep: seq<byte>, ghost tt: string, ghost ft: string)
    requires bc.Valid() && keep <= bc.code && |keep| <= jf && jf + 5 <= jmp && jmp + 5 <= |bc.code|
    requires bc.code[jf] == JUMPIFFALSE && Assembler.WordAt(bc.code, jf + 1) == U32(jmp + 5) && bc.code[jmp] == JUMP
    requires kf < |bc.jumps| && bc.jumps[kf] == jf + 1 && kj < |bc.jumps| && bc.jumps[kj] == jmp + 1
    modifies bc
    ensures Extends(bc, keep, old(bc.jumps)) && bc.variables == old(bc.variables) && bc.functionRefs == old(bc.functionRefs)
    ensures |bc.code| == |old(bc.code)| && bc.jumps == old(bc.jumps)
    ensures Patched(bc.code, bc.jumps, |keep|, Branches(jf, jmp, kf, kj, tt, ft))
  {
    ghost var code1 := bc.code;
    Patch(bc, jmp + 1, U32(|bc.code|), keep);
    SetWordElsewhere(code1, jmp + 1, U32(|code1|), jf + 1);
    assert bc.code[jf] == code1[jf] && bc.code[jmp] == code1[jmp];
  }

  // ---------------------------------------------------------------------
  // Statements
  // ---------------------------------------------------------------------

  /** `EDataMode`: the variables of the program are static, those of a function dynamic. */
  datatype DataMode = Static | Dynamic

  /** The outcome `parse` reports. */
  datatype ParseStatus = ParseOk | ParseError

  /** The kind of entry a variable declaration creates in `mode`. */
  function DeclaredKind(mode: DataMode): EntityType
  {
    if mode == Static then EntityType.Variable else EntityType.DynamicVariable
  }

  /** `type_declaration` finds no type keyword after the white space at `c`: the declaration rule does not apply. */
  predicate NoTypeAt(s: string, c: CodeLocation)
    requires InText(s, c)
  {
    TypeKeywordAsWritten(s, SkipWhitespace(s, c).pos, TYPE_WORDS, 0).0.None?
  }

  /** The entry `entry` of `vs` is the function `sig` declares in `parent`, and its word is `sig.funVarPos`. */
  predicate FunctionEntry(vs: seq<VariableInfo>, entry: nat, parent: Scope, sig: Signature)
  {
    entry < |vs| && sig.funVarPos == ToU32(entry)
    && vs[entry].entityType == EntityType.Function && vs[entry].scope == parent
    && vs[entry].name == sig.name && vs[entry].funParams == sig.paramTypes
  }

  /** A table that grows keeps its entries. */
  lemma FunctionEntryKept(vs: seq<VariableInfo>, vs': seq<VariableInfo>, entry: nat, parent: Scope, sig: Signature)
    requires FunctionEntry(vs, entry, parent, sig) && TableGrows(vs, vs')
    ensures FunctionEntry(vs', entry, parent, sig)
  {
    assert vs'[entry] == vs[entry];
  }

  /** The character just before `c` is the '}' that closes a block. */
  predicate ClosedBefore(s: string, c: CodeLocation)
  {
    0 < c.pos <= |s| && s[c.pos - 1] == '}'
  }

  /** The keyword `function`, ignoring case and followed by a terminal, after the white space at `c`. */
  predicate FunctionKeywordAt(s: string, c: CodeLocation)
    requires InText(s, c)
  {
    var w := SkipWhitespace(s, c);
    MatchesAt(s, w.pos, "function") && TerminalAt(s, w.pos + 8)
  }

  /**
   * What the head of a function definition declares: its name, the scope
   * of its parameters and body, whether it has a type (`of <type>`), the
   * table index of its entry, and its parameters' indexes and types.
   */
  datatype Signature = Signature(name: string, scope: Scope, typed: bool, typeString: string,
                                 funVarPos: u32, params: seq<u32>, paramTypes: string)

  /** The instructions a function's code starts with. */
  function SignaturePrologue(sig: Signature, locals: seq<u32>): seq<Instr>
  {
    if sig.typed then Prologue(sig.funVarPos, sig.params, locals) else LocalAllocs(locals)
  }

  class Parser {
    /** The table of declared entities. */
    const variables: Variables
    /** `std::stold` and the memory layout of the `long double` it returns. */
    const floatImage: string -> Block12

    constructor (image: string -> Block12)
      ensures fresh(variables) && variables.variables == [] && floatImage == image
    {
      variables := new Variables();
      floatImage := image;
    }

    // -------------------------------------------------------------------
    // Expressions
    // -------------------------------------------------------------------

    /**
     * `literals`: a string, float, integer or boolean literal, appended as
     * PUTSTRING, PUTFLOAT, PUTINT or PUTBOOLEAN.  There is none on the left
     * of an assignment.
     */
    method Literals(s: string, c: CodeLocation, ap: AssignPos, bc: Bytecode) returns (ret: RetVal, t: string, c': CodeLocation, ghost ins: Instr)
      requires InText(s, c) && bc.Valid()
      modifies bc
      ensures InText(s, c') && (ret != Ok ==> c' == c) && (ret == Ok ==> c.pos < c'.pos)
      ensures bc.Valid() && bc.jumps == old(bc.jumps) && bc.variables == old(bc.variables) && bc.functionRefs == old(bc.functionRefs)
      ensures ret == Ok ==> (bc.code == old(bc.code) + Encode(ins) && t == LiteralType(ins)
        && LiteralText(s, SkipWhitespace(s, c), ins, floatImage))
      ensures ret != Ok ==> bc.code == old(bc.code)
      ensures ret == FailContinue <==> ap == Right && NoLiteral(s, SkipWhitespace(s, c))
    {
      var w := Whitespace(s, c);
      WhitespaceIdempotent(s, c);
      ins := Nop;
      if ap == Left {
        return FailStop, "", c, ins;
      }
      var r, p;
      r, t, p, ins := StringLiteral(s, w, bc);
      if r == FailContinue {
        r, t, p, ins := NumberLiteral(s, w, bc);
      }
      if r != Ok {
        return r, t, c, ins;
      }
      return r, t, p, ins;
    }

    /** The first kind the literal rule tries: a string literal. */
    method StringLiteral(s: string, w: CodeLocation, bc: Bytecode) returns (ret: RetVal, t: string, c': CodeLocation, ghost ins: Instr)
      requires InText(s, w) && SkipWhitespace(s, w) == w && bc.Valid()
      modifies bc
      ensures InText(s, c') && (ret != Ok ==> c' == w) && (ret == Ok ==> w.pos < c'.pos)
      ensures bc.Valid() && bc.jumps == old(bc.jumps) && bc.variables == old(bc.variables) && bc.functionRefs == old(bc.functionRefs)
      ensures ret == Ok ==> (bc.code == old(bc.code) + Encode(ins) && t == LiteralType(ins)
        && LiteralText(s, w, ins, floatImage))
      ensures ret != Ok ==> bc.code == old(bc.code)
      ensures ret == FailContinue <==> !CheckSymbol(s, w, '"')
    {
      ins := Nop;
      var r, v, p := StringExpression(s, w);
      if r == Ok {
        assert w.pos < p.pos;
        var x := PutString(v);
        var _ := bc.EmitString(v);
        ins := x;
        return Ok, "s", p, ins;
      }
      return r, "", w, ins;
    }

    /** The literal rule once no string literal starts at `w`: a float, an integer or a boolean. */
    method NumberLiteral(s: string, w: CodeLocation, bc: Bytecode) returns (ret: RetVal, t: string, c': CodeLocation, ghost ins: Instr)
      requires InText(s, w) && SkipWhitespace(s, w) == w && !CheckSymbol(s, w, '"') && bc.Valid()
      modifies bc
      ensures InText(s, c') && (ret != Ok ==> c' == w) && (ret == Ok ==> w.pos < c'.pos)
      ensures bc.Valid() && bc.jumps == old(bc.jumps) && bc.variables == old(bc.variables) && bc.functionRefs == old(bc.functionRefs)
      ensures ret == Ok ==> (bc.code == old(bc.code) + Encode(ins) && t == LiteralType(ins)
        && LiteralText(s, w, ins, floatImage))
      ensures ret != Ok ==> bc.code == old(bc.code)
      ensures ret == FailContinue <==> NoLiteral(s, w)
    {
      ins := Nop;
      var r, v, p := UnsignedFloat(s, w);
      if r == Ok {
        var x := PutFloat(floatImage(v));
        var _ := bc.Emit(x);
        ins := x;
        return Ok, "f", p, ins;
      } else if r == FailStop {
        return FailStop, "", w, ins;
      }
      r, t, p, ins := IntegerOrBoolean(s, w, bc);
      return r, t, p, ins;
    }

    /** The literal rule once neither a string nor a float starts at `w`. */
    method IntegerOrBoolean(s: string, w: CodeLocation, bc: Bytecode) returns (ret: RetVal, t: string, c': CodeLocation, ghost ins: Instr)
      requires InText(s, w) && SkipWhitespace(s, w) == w && !CheckSymbol(s, w, '"') && !FloatStarted(s, w) && bc.Valid()
      modifies bc
      ensures InText(s, c') && (ret != Ok ==> c' == w) && (ret == Ok ==> w.pos < c'.pos)
      ensures bc.Valid() && bc.jumps == old(bc.jumps) && bc.variables == old(bc.variables) && bc.functionRefs == old(bc.functionRefs)
      ensures ret == Ok ==> (bc.code == old(bc.code) + Encode(ins) && t == LiteralType(ins)
        && LiteralText(s, w, ins, floatImage))
      ensures ret != Ok ==> bc.code == old(bc.code)
      ensures ret == FailContinue <==> NoLiteral(s, w)
    {
      ins := Nop;
      var r, v, p := UnsignedInteger(s, w);
      if r == Ok {
        var n := Stoll(v);
        if n.None? {
          return FailStop, "", w, ins;
        }
        var x := PutInt(n.value);
        var _ := bc.Emit(x);
        ins := x;
        return Ok, "i", p, ins;
      }
      var b: bool;
      r, b, p := BooleanValue(s, w);
      if r == Ok {
        var x := PutBoolean(b);
        var _ := bc.Emit(x);
        ins := x;
        return Ok, "b", p, ins;
      }
      return FailContinue, "", w, ins;
    }

    /**
     * `primary_expression`: a declared name.  A variable puts its address
     * (PUTADDR, or PUTDADDR for a function's local) and is then indexed by
     * any number of `[...]`, each index list giving PUTINDADDR with the
     * number of indexes; a function is called with an argument list on the
     * right, or names its return slot (PUTDADDR) on the left.
     */
    method Primary(s: string, c: CodeLocation, ap: AssignPos, bc: Bytecode, scope: Scope)
      returns (ret: RetVal, t: string, c': CodeLocation, ghost entity: VariableInfo, ghost indexings: seq<string>)
      requires InText(s, c) && bc.Valid() && variables.Valid()
      modifies bc
      decreases |s| - c.pos, 10
      ensures InText(s, c') && (ret != Ok ==> c' == c) && (ret == Ok ==> c.pos < c'.pos)
      ensures Extends(bc, old(bc.code), old(bc.jumps)) && bc.variables == old(bc.variables) && bc.functionRefs == old(bc.functionRefs)
      ensures ret == FailContinue <==> !NameAt(s, c)
      ensures NameAt(s, c) && Lookup(variables.variables, scope, s, c).None? ==> ret == FailStop
      ensures ret == Ok ==> NameAt(s, c) && Lookup(variables.variables, scope, s, c) == Some(entity)
      ensures ret == Ok && IsVariableKind(entity.entityType) ==>
        ElementType(entity.typeString, indexings) == Some(t)
        && old(bc.code) + Encode(if entity.entityType == DynamicVariable then PutDAddr(U32(entity.idx as nat)) else PutAddr(U32(entity.idx as nat))) <= bc.code
      ensures ret == Ok && IsFunctionKind(entity.entityType) && ap == Left ==>
        t == entity.typeString && bc.code == old(bc.code) + Encode(PutDAddr(U32(entity.idx as nat)))
      ensures ret == Ok && IsFunctionKind(entity.entityType) && ap == Right ==>
        t == entity.typeString && |indexings| == 1 && ArgumentsConsistent(entity.funParams, indexings[0])
        && EndsWith(bc.code, Call(U32(entity.idx as nat)))
      ensures ret == Ok ==> IsVariableKind(entity.entityType) || IsFunctionKind(entity.entityType)
    {
      entity, indexings := Missing(""), [];
      var w := Whitespace(s, c);
      WhitespaceIdempotent(s, c);
      var r, name, p := ScanIdentifier(s, w);
      if r != Ok {
        return FailContinue, "", c, entity, indexings;
      }
      assert NameAt(s, c) && Lexer.WordAt(s, c).value.0 == name;
      var found, v := variables.GetVariable(scope, Inheritance, name);
      assert Lookup(variables.variables, scope, s, c) == (if found then Some(v) else None);
      entity := v;
      if v.idx == -1 {
        return FailStop, "", c, entity, indexings;
      }
      assert found;
      var r2, q;
      r2, t, q, indexings := Access(s, p, ap, bc, scope, v);
      if r2 != Ok {
        return FailStop, "", c, entity, indexings;
      }
      return Ok, t, q, entity, indexings;
    }

    /**
     * What the primary rule does with the entity `v` its name denotes, the
     * cursor just after the name.
     */
    method Access(s: string, c: CodeLocation, ap: AssignPos, bc: Bytecode, scope: Scope, v: VariableInfo)
      returns (ret: RetVal, t: string, c': CodeLocation, ghost indexings: seq<string>)
      requires InText(s, c) && bc.Valid() && variables.Valid() && v.idx >= 0
      modifies bc
      decreases |s| - c.pos, 9
      ensures InText(s, c') && c.pos <= c'.pos
      ensures Extends(bc, old(bc.code), old(bc.jumps)) && bc.variables == old(bc.variables) && bc.functionRefs == old(bc.functionRefs)
      ensures ret == Ok ==> IsVariableKind(v.entityType) || IsFunctionKind(v.entityType)
      ensures ret == Ok && IsVariableKind(v.entityType) ==>
        ElementType(v.typeString, indexings) == Some(t)
        && old(bc.code) + Encode(if v.entityType == DynamicVariable then PutDAddr(U32(v.idx as nat)) else PutAddr(U32(v.idx as nat))) <= bc.code
      ensures ret == Ok && IsFunctionKind(v.entityType) && ap == Left ==>
        t == v.typeString && bc.code == old(bc.code) + Encode(PutDAddr(U32(v.idx as nat)))
      ensures ret == Ok && IsFunctionKind(v.entityType) && ap == Right ==>
        t == v.typeString && |indexings| == 1 && ArgumentsConsistent(v.funParams, indexings[0])
        && EndsWith(bc.code, Call(U32(v.idx as nat)))
    {
      indexings := [];
      var idx := U32(v.idx as nat);
      if IsVariableKind(v.entityType) {
        if v.entityType == DynamicVariable {
          var _ := bc.Emit(PutDAddr(idx));
        } else {
          var _ := bc.Emit(PutAddr(idx));
        }
        ghost var code1 := bc.code;
        var r2, q;
        r2, t, q, indexings := Indexes(s, c, bc, scope, v.typeString);
        PrefixTransitive(old(bc.code), code1, bc.code);
        return r2, t, q, indexings;
      } else if IsFunctionKind(v.entityType) {
        var w1 := Whitespace(s, c);
        if ap == Right && CheckSymbol(s, w1, '(') {
          var r2, q, types := FunctionCall(s, Plus(w1, 1), bc, scope, v.funParams, idx);
          indexings := [types];
          return r2, v.typeString, q, indexings;
        } else if ap == Left {
          var _ := bc.Emit(PutDAddr(idx));
          return Ok, v.typeString, w1, indexings;
        }
      }
      return FailStop, "", c, indexings;
    }

    /**
     * The indexes after a variable of type `t0`: any number of `[...]`,
     * each an argument list whose types index the array type reached so
     * far, followed by PUTINDADDR with the number of indexes.
     */
    method Indexes(s: string, c: CodeLocation, bc: Bytecode, scope: Scope, t0: string)
      returns (ret: RetVal, t: string, c': CodeLocation, ghost indexings: seq<string>)
      requires InText(s, c) && bc.Valid() && variables.Valid()
      modifies bc
      decreases |s| - c.pos, 8
      ensures InText(s, c') && (ret != Ok ==> c' == c) && c.pos <= c'.pos && ret != FailContinue
      ensures Extends(bc, old(bc.code), old(bc.jumps)) && bc.variables == old(bc.variables) && bc.functionRefs == old(bc.functionRefs)
      ensures ret == Ok ==> ElementType(t0, indexings) == Some(t)
    {
      var p := c;
      t, indexings := t0, [];
      while true
        invariant InText(s, p) && c.pos <= p.pos
        invariant Extends(bc, old(bc.code), old(bc.jumps))
        invariant bc.variables == old(bc.variables) && bc.functionRefs == old(bc.functionRefs)
        invariant ElementType(t0, indexings) == Some(t)
        decreases |s| - p.pos
      {
        var w1 := Whitespace(s, p);
        if !CheckSymbol(s, w1, '[') {
          return Ok, t, w1, indexings;
        }
        var w2 := Whitespace(s, Plus(w1, 1));
        ghost var code1, jumps1 := bc.code, bc.jumps;
        var r2, types, count, q, _ := ArgumentList(s, w2, Right, bc, scope);
        PrefixTransitive(old(bc.code), code1, bc.code);
        PrefixTransitive(old(bc.jumps), jumps1, bc.jumps);
        if r2 != Ok {
          return FailStop, "", c, indexings;
        }
        var w3 := Whitespace(s, q);
        if !CheckSymbol(s, w3, ']') {
          return FailStop, "", c, indexings;
        }
        var pr := ProcessArrayDatatype(t, types);
        if !pr.0 {
          return FailStop, "", c, indexings;
        }
        ElementTypeSnoc(t0, indexings, types, t);
        p := Plus(w3, 1);
        code1 := bc.code;
        var _ := bc.Emit(PutIndAddr((count % 256) as byte));
        PrefixTransitive(old(bc.code), code1, bc.code);
        t := pr.1;
        indexings := indexings + [types];
      }
    }

    /**
     * The call of a function with parameter types `params` at DATA index
     * `idx`: an argument list and ')', the argument types assignable to the
     * parameters, then CALL.
     */
    method FunctionCall(s: string, c: CodeLocation, bc: Bytecode, scope: Scope, params: string, idx: u32)
      returns (ret: RetVal, c': CodeLocation, ghost types: string)
      requires InText(s, c) && bc.Valid() && variables.Valid()
      modifies bc
      decreases |s| - c.pos, 101
      ensures InText(s, c') && (ret != Ok ==> c' == c) && (ret == Ok ==> c.pos < c'.pos) && ret != FailContinue
      ensures Extends(bc, old(bc.code), old(bc.jumps)) && bc.variables == old(bc.variables) && bc.functionRefs == old(bc.functionRefs)
      ensures ret == Ok ==> ArgumentsConsistent(params, types) && EndsWith(bc.code, Call(idx))
    {
      types := "";
      var r, ts, count, q, _ := ArgumentList(s, c, Right, bc, scope);
      if r == Ok {
        var w := Whitespace(s, q);
        if CheckSymbol(s, w, ')') {
          var ok := ConsistentFunctionArguments(params, ts);
          if ok {
            ghost var code1 := bc.code;
            var _ := bc.Emit(Call(idx));
            PrefixTransitive(old(bc.code), code1, bc.code);
            types := ts;
            return Ok, Plus(w, 1), types;
          }
        }
      }
      return FailStop, c, types;
    }

    /**
     * `argumentlist_expression`: one expression or more, separated by
     * commas; their types are joined with ','.  Every failure is FAIL_STOP.
     */
    method ArgumentList(s: string, c: CodeLocation, ap: AssignPos, bc: Bytecode, scope: Scope)
      returns (ret: RetVal, types: string, count: nat, c': CodeLocation, ghost argTypes: seq<string>)
      requires InText(s, c) && bc.Valid() && variables.Valid()
      modifies bc
      decreases |s| - c.pos, 100
      ensures InText(s, c') && (ret != Ok ==> c' == c) && (ret == Ok ==> c.pos < c'.pos)
      ensures Extends(bc, old(bc.code), old(bc.jumps)) && bc.variables == old(bc.variables) && bc.functionRefs == old(bc.functionRefs)
      ensures ret != FailContinue
      ensures ret == Ok ==> count == |argTypes| > 0 && types == Join(argTypes, ',')
    {
      argTypes := [];
      var p := c;
      types, count := "", 0;
      while true
        invariant count == |argTypes|
        invariant InText(s, p) && c.pos <= p.pos && (|argTypes| > 0 ==> c.pos < p.pos)
        invariant Extends(bc, old(bc.code), old(bc.jumps))
        invariant bc.variables == old(bc.variables) && bc.functionRefs == old(bc.functionRefs)
        invariant |argTypes| > 0 ==> types == Join(argTypes, ',') + ","
        invariant |argTypes| == 0 ==> types == ""
        decreases |s| - p.pos
      {
        var w := Whitespace(s, p);
        ghost var code1, jumps1 := bc.code, bc.jumps;
        var r, t, q, _, _ := Conditional(s, w, ap, bc, scope);
        PrefixTransitive(old(bc.code), code1, bc.code);
        PrefixTransitive(old(bc.jumps), jumps1, bc.jumps);
        if r != Ok {
          return FailStop, "", 0, c, argTypes;
        }
        var w1 := Whitespace(s, q);
        if |argTypes| > 0 {
          JoinSnoc(argTypes, t, ',');
        }
        types := types + t;
        argTypes := argTypes + [t];
        count := count + 1;
        if CheckSymbol(s, w1, ',') {
          types := types + ",";
          p := Plus(w1, 1);
        } else {
          return Ok, types, count, w1, argTypes;
        }
      }
    }

    /**
     * `postfix_expression`: on the right a literal or a parenthesised
     * expression; otherwise a name, after any number of leading dots, each
     * reducing the scope it is looked up in by one segment.  A '.' after a
     * name makes the rule try another name at the '.', where there is none,
     * so `x.y` is always an error.
     */
    method Postfix(s: string, c: CodeLocation, ap: AssignPos, bc: Bytecode, scope: Scope)
      returns (ret: RetVal, t: string, c': CodeLocation, ghost form: PostfixForm)
      requires InText(s, c) && bc.Valid() && variables.Valid()
      modifies bc
      decreases |s| - c.pos, 20
      ensures InText(s, c') && (ret != Ok ==> c' == c) && (ret == Ok ==> c.pos < c'.pos)
      ensures Extends(bc, old(bc.code), old(bc.jumps)) && bc.variables == old(bc.variables) && bc.functionRefs == old(bc.functionRefs)
      ensures ret == Ok && form.Literal? ==> (ap == Right && bc.code == old(bc.code) + Encode(form.ins)
        && t == LiteralType(form.ins) && LiteralText(s, SkipWhitespace(s, c), form.ins, floatImage))
      ensures ret == Ok && form.Parenthesized? ==> ap == Right && CheckSymbol(s, SkipWhitespace(s, c), '(')
      ensures ret == Ok && form.Named? ==> var w := SkipWhitespace(s, c);
        DotsAt(s, w.pos, form.dots) && InText(s, Plus(w, form.dots)) && NameAt(s, Plus(w, form.dots))
        && Lookup(variables.variables, ReduceTimes(scope, form.dots), s, Plus(w, form.dots)) == Some(form.entity)
        && !CheckSymbol(s, c', '.')
      ensures ret == Ok ==> (ap == Left ==> form.Named?)
    {
      var w := Whitespace(s, c);
      WhitespaceIdempotent(s, c);
      var r, p;
      if ap == Right {
        r, t, p, form := Operand(s, w, bc, scope);
        if r == Ok {
          return Ok, t, p, form;
        } else if r == FailStop {
          return FailStop, "", c, form;
        }
      }
      r, t, p, form := NamedOperand(s, w, ap, bc, scope);
      if r != Ok {
        return r, "", c, form;
      }
      return Ok, t, p, form;
    }

    /** The postfix rule on the right: a literal, or an expression in parentheses. */
    method Operand(s: string, w: CodeLocation, bc: Bytecode, scope: Scope)
      returns (ret: RetVal, t: string, c': CodeLocation, ghost form: PostfixForm)
      requires InText(s, w) && SkipWhitespace(s, w) == w && bc.Valid() && variables.Valid()
      modifies bc
      decreases |s| - w.pos, 19
      ensures InText(s, c') && (ret != Ok ==> c' == w) && (ret == Ok ==> w.pos < c'.pos)
      ensures Extends(bc, old(bc.code), old(bc.jumps)) && bc.variables == old(bc.variables) && bc.functionRefs == old(bc.functionRefs)
      ensures ret == Ok ==> form.Literal? || form.Parenthesized?
      ensures ret == Ok && form.Literal? ==> (bc.code == old(bc.code) + Encode(form.ins)
        && t == LiteralType(form.ins) && LiteralText(s, w, form.ins, floatImage))
      ensures ret == Ok && form.Parenthesized? ==> CheckSymbol(s, w, '(')
    {
      form := Parenthesized;
      var r, lt, p, ins := Literals(s, w, Right, bc);
      if r == Ok {
        form := Literal(ins);
        return Ok, lt, p, form;
      } else if r == FailStop {
        return FailStop, "", w, form;
      }
      if CheckSymbol(s, w, '(') {
        var r2, t2, p2, _, _ := Conditional(s, Plus(w, 1), Right, bc, scope);
        if r2 == Ok {
          var w2 := Whitespace(s, p2);
          if CheckSymbol(s, w2, ')') {
            return Ok, t2, Plus(w2, 1), form;
          }
        }
        return FailStop, "", w, form;
      }
      return FailContinue, "", w, form;
    }

    /** The postfix rule for a name, after any number of leading dots. */
    method NamedOperand(s: string, w: CodeLocation, ap: AssignPos, bc: Bytecode, scope: Scope)
      returns (ret: RetVal, t: string, c': CodeLocation, ghost form: PostfixForm)
      requires InText(s, w) && bc.Valid() && variables.Valid()
      modifies bc
      decreases |s| - w.pos, 18
      ensures InText(s, c') && (ret != Ok ==> c' == w) && (ret == Ok ==> w.pos < c'.pos)
      ensures Extends(bc, old(bc.code), old(bc.jumps)) && bc.variables == old(bc.variables) && bc.functionRefs == old(bc.functionRefs)
      ensures ret == Ok ==> (form.Named? && DotsAt(s, w.pos, form.dots) && InText(s, Plus(w, form.dots))
        && NameAt(s, Plus(w, form.dots))
        && Lookup(variables.variables, ReduceTimes(scope, form.dots), s, Plus(w, form.dots)) == Some(form.entity)
        && !CheckSymbol(s, c', '.'))
    {
      form := Parenthesized;
      var p := w;
      var dots: nat := 0;
      var sc := scope;
      while CheckSymbol(s, p, '.')
        invariant InText(s, p) && p == Plus(w, dots) && DotsAt(s, w.pos, dots) && sc == ReduceTimes(scope, dots)
        decreases |s| - p.pos
      {
        p := Plus(p, 1);
        dots := dots + 1;
        sc := Reduce(sc);
      }
      var first := true;
      while true
        invariant InText(s, p) && w.pos <= p.pos && (!first ==> CheckSymbol(s, p, '.')) && (first ==> p == Plus(w, dots))
        invariant Extends(bc, old(bc.code), old(bc.jumps))
        invariant bc.variables == old(bc.variables) && bc.functionRefs == old(bc.functionRefs)
        decreases |s| - p.pos
      {
        if !first {
          assert !IdentifierFirstChar(s, SkipWhitespace(s, p));
        }
        ghost var code1, jumps1 := bc.code, bc.jumps;
        var r, pt, q, entity, _ := Primary(s, p, ap, bc, if first then sc else scope);
        PrefixTransitive(old(bc.code), code1, bc.code);
        PrefixTransitive(old(bc.jumps), jumps1, bc.jumps);
        if r != Ok {
          return if dots > 0 || !first then FailStop else r, "", w, form;
        }
        assert first;
        if CheckSymbol(s, q, '.') {
          first := false;
          p := q;
        } else {
          form := Named(dots, entity);
          return Ok, pt, q, form;
        }
      }
    }

    /**
     * `unary_expression`: on the right, a '-' or `not` and another unary
     * expression of a consistent type, then NEG (for both operators); or a
     * postfix expression.
     */
    method Unary(s: string, c: CodeLocation, ap: AssignPos, bc: Bytecode, scope: Scope)
      returns (ret: RetVal, t: string, c': CodeLocation, ghost opType: Option<string>)
      requires InText(s, c) && bc.Valid() && variables.Valid()
      modifies bc
      decreases |s| - c.pos, 30
      ensures InText(s, c') && (ret != Ok ==> c' == c) && (ret == Ok ==> c.pos < c'.pos)
      ensures Extends(bc, old(bc.code), old(bc.jumps)) && bc.variables == old(bc.variables) && bc.functionRefs == old(bc.functionRefs)
      ensures ret == Ok && opType.Some? ==> ap == Right && Consistent(opType.value, t) && EndsWith(bc.code, Neg)
      ensures ret == Ok && ap == Right ==> var w := SkipWhitespace(s, c);
        (opType == Some("n") <==> CheckSymbol(s, w, '-'))
        && (opType == Some("b") <==> !CheckSymbol(s, w, '-') && KeywordAsWritten(s, w.pos, "not"))
      ensures ap == Left ==> opType.None?
    {
      var w := Whitespace(s, c);
      WhitespaceIdempotent(s, c);
      opType := None;
      if ap == Left {
        var r, pt, p, _ := Postfix(s, w, ap, bc, scope);
        if r == Ok {
          return Ok, pt, p, opType;
        }
        return r, "", c, opType;
      }
      var found, ot, p := UnaryOperator(s, w);
      if found {
        opType := Some(ot);
        var r, ut, q, _ := Unary(s, p, ap, bc, scope);
        if r == Ok && Consistent(ot, ut) {
          ghost var code1 := bc.code;
          var _ := bc.Emit(Neg);
          PrefixTransitive(old(bc.code), code1, bc.code);
          return Ok, ut, q, opType;
        }
        return FailStop, "", c, opType;
      }
      var r, pt, q, _ := Postfix(s, w, ap, bc, scope);
      if r == Ok {
        return Ok, pt, q, opType;
      }
      return r, "", c, opType;
    }

    /**
     * One operand of a product at `c`: a unary expression and, after the
     * first (`n > 0`), the pending operator, which needs both the product so
     * far (of type `pre`) and the operand to be numeric.
     */
    method Factor(s: string, c: CodeLocation, ap: AssignPos, bc: Bytecode, scope: Scope, n: nat, pre: string, pending: Instr)
      returns (ret: RetVal, t: string, c': CodeLocation)
      requires InText(s, c) && bc.Valid() && variables.Valid()
      requires n > 0 ==> pending == Mul || pending == Div
      modifies bc
      decreases |s| - c.pos, 39
      ensures InText(s, c') && (ret != Ok ==> c' == c) && (ret == Ok ==> c.pos < c'.pos)
      ensures Extends(bc, old(bc.code), old(bc.jumps)) && bc.variables == old(bc.variables) && bc.functionRefs == old(bc.functionRefs)
      ensures n > 0 ==> ret != FailContinue
      ensures ret == Ok && n > 0 ==> IsNumeric(pre) && IsNumeric(t) && EndsWith(bc.code, pending)
    {
      var w := Whitespace(s, c);
      var r, cur, q, _ := Unary(s, w, ap, bc, scope);
      if r != Ok {
        return if n > 0 then FailStop else r, "", c;
      }
      if n > 0 {
        ghost var code1 := bc.code;
        var _ := bc.Emit(pending);
        PrefixTransitive(old(bc.code), code1, bc.code);
        if !(IsNumeric(pre) && IsNumeric(cur)) {
          return FailStop, "", c;
        }
      }
      return Ok, cur, q;
    }

    /**
     * `mult_expression`: unary expressions joined by '*' and '/', the
     * operator emitted after its right operand.  Every operand of a
     * product must be numeric; the type is that of the chain.
     */
    method Mult(s: string, c: CodeLocation, ap: AssignPos, bc: Bytecode, scope: Scope)
      returns (ret: RetVal, t: string, c': CodeLocation, ghost operands: seq<string>, ghost last: Instr)
      requires InText(s, c) && bc.Valid() && variables.Valid()
      modifies bc
      decreases |s| - c.pos, 40
      ensures InText(s, c') && (ret != Ok ==> c' == c) && (ret == Ok ==> c.pos < c'.pos)
      ensures Extends(bc, old(bc.code), old(bc.jumps)) && bc.variables == old(bc.variables) && bc.functionRefs == old(bc.functionRefs)
      ensures ret == Ok ==> |operands| > 0 && t == ChainType(operands)
      ensures ret == Ok && |operands| > 1 ==> AllNumeric(operands) && (last == Mul || last == Div) && EndsWith(bc.code, last)
    {
      operands, last := [], Nop;
      var p := c;
      var pre := UNKNOWN_DATATYPE;
      var pending := Nop;
      var n := 0;
      while true
        invariant n == |operands|
        invariant InText(s, p) && c.pos <= p.pos && (|operands| > 0 ==> c.pos < p.pos)
        invariant Extends(bc, old(bc.code), old(bc.jumps))
        invariant bc.variables == old(bc.variables) && bc.functionRefs == old(bc.functionRefs)
        invariant pre == ChainType(operands)
        invariant |operands| > 0 ==> pending == Mul || pending == Div
        invariant |operands| > 1 ==> AllNumeric(operands)
        decreases |s| - p.pos
      {
        ghost var code1, jumps1 := bc.code, bc.jumps;
        var r, cur, q := Factor(s, p, ap, bc, scope, n, pre, pending);
        PrefixTransitive(old(bc.code), code1, bc.code);
        PrefixTransitive(old(bc.jumps), jumps1, bc.jumps);
        if r != Ok {
          return r, "", c, operands, last;
        }
        last := pending;
        ProductSnoc(operands, pre, cur);
        operands := operands + [cur];
        n := n + 1;
        pre := MaxDatatype(pre, cur);
        var found, op, q1 := ArithOperator(s, q, '*', Mul, '/', Div);
        if !found {
          return Ok, pre, q, operands, last;
        }
        pending := op;
        p := q1;
      }
    }

    /**
     * One operand of a sum at `c`: a multiplicative expression and, after
     * the first (`n > 0`), the pending operator, which needs the sum so far
     * (of type `pre`) and the operand to be both numeric or both strings.
     */
    method Term(s: string, c: CodeLocation, ap: AssignPos, bc: Bytecode, scope: Scope, n: nat, pre: string, pending: Instr)
      returns (ret: RetVal, t: string, c': CodeLocation)
      requires InText(s, c) && bc.Valid() && variables.Valid()
      requires n > 0 ==> pending == Add || pending == Sub
      modifies bc
      decreases |s| - c.pos, 49
      ensures InText(s, c') && (ret != Ok ==> c' == c) && (ret == Ok ==> c.pos < c'.pos)
      ensures Extends(bc, old(bc.code), old(bc.jumps)) && bc.variables == old(bc.variables) && bc.functionRefs == old(bc.functionRefs)
      ensures n > 0 ==> ret != FailContinue
      ensures ret == Ok && n > 0 ==> (((IsNumeric(pre) && IsNumeric(t)) || (pre == "s" && t == "s"))
        && EndsWith(bc.code, pending))
    {
      var w := Whitespace(s, c);
      var r, cur, q, _, _ := Mult(s, w, ap, bc, scope);
      if r != Ok {
        return if n > 0 then FailStop else r, "", c;
      }
      if n > 0 {
        ghost var code1 := bc.code;
        var _ := bc.Emit(pending);
        PrefixTransitive(old(bc.code), code1, bc.code);
        if !((IsNumeric(pre) && IsNumeric(cur)) || (pre == "s" && cur == "s")) {
          return FailStop, "", c;
        }
      }
      return Ok, cur, q;
    }

    /**
     * `additive_expression`: multiplicative expressions joined by '+' and
     * '-'.  The operands of a sum must all be numbers or all be strings.
     */
    method Additive(s: string, c: CodeLocation, ap: AssignPos, bc: Bytecode, scope: Scope)
      returns (ret: RetVal, t: string, c': CodeLocation, ghost operands: seq<string>, ghost last: Instr)
      requires InText(s, c) && bc.Valid() && variables.Valid()
      modifies bc
      decreases |s| - c.pos, 50
      ensures InText(s, c') && (ret != Ok ==> c' == c) && (ret == Ok ==> c.pos < c'.pos)
      ensures Extends(bc, old(bc.code), old(bc.jumps)) && bc.variables == old(bc.variables) && bc.functionRefs == old(bc.functionRefs)
      ensures ret == Ok ==> |operands| > 0 && t == ChainType(operands)
      ensures ret == Ok && |operands| > 1 ==> (Summable(operands)
        && (last == Add || last == Sub) && EndsWith(bc.code, last))
    {
      operands, last := [], Nop;
      var p := c;
      var pre := UNKNOWN_DATATYPE;
      var pending := Nop;
      var n := 0;
      while true
        invariant n == |operands|
        invariant InText(s, p) && c.pos <= p.pos && (|operands| > 0 ==> c.pos < p.pos)
        invariant Extends(bc, old(bc.code), old(bc.jumps))
        invariant bc.variables == old(bc.variables) && bc.functionRefs == old(bc.functionRefs)
        invariant pre == ChainType(operands)
        invariant |operands| > 0 ==> pending == Add || pending == Sub
        invariant |operands| > 1 ==> Summable(operands)
        decreases |s| - p.pos
      {
        ghost var code1, jumps1 := bc.code, bc.jumps;
        var r, cur, q := Term(s, p, ap, bc, scope, n, pre, pending);
        PrefixTransitive(old(bc.code), code1, bc.code);
        PrefixTransitive(old(bc.jumps), jumps1, bc.jumps);
        if r != Ok {
          return r, "", c, operands, last;
        }
        last := pending;
        SumSnoc(operands, pre, cur);
        operands := operands + [cur];
        n := n + 1;
        pre := MaxDatatype(pre, cur);
        var found, op, q1 := ArithOperator(s, q, '+', Add, '-', Sub);
        if !found {
          return Ok, pre, q, operands, last;
        }
        pending := op;
        p := q1;
      }
    }

    /**
     * `relational_expression`: an additive expression, optionally compared
     * with a second one of a consistent type; a comparison is boolean.  The
     * comparison instruction is emitted into a buffer of its own and
     * appended after the right operand.
     */
    method Relational(s: string, c: CodeLocation, ap: AssignPos, bc: Bytecode, scope: Scope)
      returns (ret: RetVal, t: string, c': CodeLocation, ghost op: Option<Instr>, ghost left: string, ghost right: string)
      requires InText(s, c) && bc.Valid() && variables.Valid()
      modifies bc
      decreases |s| - c.pos, 60
      ensures InText(s, c') && (ret != Ok ==> c' == c) && (ret == Ok ==> c.pos < c'.pos)
      ensures Extends(bc, old(bc.code), old(bc.jumps)) && bc.variables == old(bc.variables) && bc.functionRefs == old(bc.functionRefs)
      ensures ret == Ok && op.None? ==> t == left
      ensures ret == Ok && op.Some? ==> (t == "b" && IsComparison(op.value) && Consistent(left, right)
        && EndsWith(bc.code, op.value))
    {
      op, left, right := None, "", "";
      var w := Whitespace(s, c);
      ghost var code1, jumps1 := bc.code, bc.jumps;
      var r, lt, p, _, _ := Additive(s, w, ap, bc, scope);
      left := lt;
      if r != Ok {
        return r, "", c, op, left, right;
      }
      var found, o, q := RelationOperator(s, p);
      if !found {
        return Ok, lt, p, op, left, right;
      }
      op := Some(o);
      code1, jumps1 := bc.code, bc.jumps;
      var r2, p2;
      r2, p2, right := Comparison(s, q, ap, bc, scope, o, lt);
      PrefixTransitive(old(bc.code), code1, bc.code);
      PrefixTransitive(old(bc.jumps), jumps1, bc.jumps);
      if r2 != Ok {
        return FailStop, "", c, op, left, right;
      }
      return Ok, "b", p2, op, left, right;
    }

    /**
     * The right operand of the comparison `op` whose left operand has type
     * `lt`: the comparison is emitted into a buffer of its own, the operand
     * is parsed into `bc`, and the buffer is appended after it.
     */
    method Comparison(s: string, c: CodeLocation, ap: AssignPos, bc: Bytecode, scope: Scope, op: Instr, lt: string)
      returns (ret: RetVal, c': CodeLocation, ghost right: string)
      requires InText(s, c) && bc.Valid() && variables.Valid() && IsComparison(op)
      modifies bc
      decreases |s| - c.pos, 59
      ensures InText(s, c') && (ret != Ok ==> c' == c) && (ret == Ok ==> c.pos < c'.pos) && ret != FailContinue
      ensures Extends(bc, old(bc.code), old(bc.jumps)) && bc.variables == old(bc.variables) && bc.functionRefs == old(bc.functionRefs)
      ensures ret == Ok ==> Consistent(lt, right) && EndsWith(bc.code, op)
    {
      var rel := new Bytecode();
      var _ := rel.Emit(op);
      var r, rt, p, _, _ := Additive(s, c, ap, bc, scope);
      right := rt;
      if r != Ok || !Consistent(lt, rt) {
        return FailStop, c, right;
      }
      ghost var code1 := bc.code;
      AppendInstruction(bc, rel, op);
      PrefixTransitive(old(bc.code), code1, bc.code);
      return Ok, p, right;
    }

    /**
     * One operand of a conjunction at `c`: a relational expression and, after the first
     * (`n > 0`), MUL, which needs the previous operand (of type `prev`) and
     * this one to be boolean.
     */
    method Conjunct(s: string, c: CodeLocation, ap: AssignPos, bc: Bytecode, scope: Scope, n: nat, prev: string)
      returns (ret: RetVal, t: string, c': CodeLocation)
      requires InText(s, c) && bc.Valid() && variables.Valid()
      modifies bc
      decreases |s| - c.pos, 69
      ensures InText(s, c') && (ret != Ok ==> c' == c) && (ret == Ok ==> c.pos < c'.pos)
      ensures Extends(bc, old(bc.code), old(bc.jumps)) && bc.variables == old(bc.variables) && bc.functionRefs == old(bc.functionRefs)
      ensures n > 0 ==> ret != FailContinue
      ensures ret == Ok && n > 0 ==> prev == "b" && t == "b" && EndsWith(bc.code, Mul)
    {
      var w := Whitespace(s, c);
      var r, cur, q, _, _, _ := Relational(s, w, ap, bc, scope);
      if r != Ok {
        return if n > 0 then FailStop else r, "", c;
      }
      if n > 0 {
        ghost var code1 := bc.code;
        var _ := bc.Emit(Mul);
        PrefixTransitive(old(bc.code), code1, bc.code);
        if prev != "b" || cur != "b" {
          return FailStop, "", c;
        }
      }
      return Ok, cur, q;
    }

    /**
     * `logical_and_expression`: relational expressions joined by `and`,
     * each `and` emitted as MUL after its right operand; every operand of
     * a conjunction must be boolean.  The type is that of the last operand.
     */
    method LogicalAnd(s: string, c: CodeLocation, ap: AssignPos, bc: Bytecode, scope: Scope)
      returns (ret: RetVal, t: string, c': CodeLocation, ghost operands: seq<string>)
      requires InText(s, c) && bc.Valid() && variables.Valid()
      modifies bc
      decreases |s| - c.pos, 70
      ensures InText(s, c') && (ret != Ok ==> c' == c) && (ret == Ok ==> c.pos < c'.pos)
      ensures Extends(bc, old(bc.code), old(bc.jumps)) && bc.variables == old(bc.variables) && bc.functionRefs == old(bc.functionRefs)
      ensures ret == Ok ==> |operands| > 0 && t == operands[|operands| - 1]
      ensures ret == Ok && |operands| > 1 ==> AllBooleans(operands) && EndsWith(bc.code, Mul)
    {
      operands := [];
      var p := c;
      var n, prev := 0, "";
      while true
        invariant n == |operands| && (n > 0 ==> prev == operands[n - 1])
        invariant InText(s, p) && c.pos <= p.pos && (|operands| > 0 ==> c.pos < p.pos)
        invariant Extends(bc, old(bc.code), old(bc.jumps))
        invariant bc.variables == old(bc.variables) && bc.functionRefs == old(bc.functionRefs)
        invariant |operands| > 1 ==> AllBooleans(operands)
        decreases |s| - p.pos
      {
        ghost var code1, jumps1 := bc.code, bc.jumps;
        var r, cur, q := Conjunct(s, p, ap, bc, scope, n, prev);
        PrefixTransitive(old(bc.code), code1, bc.code);
        PrefixTransitive(old(bc.jumps), jumps1, bc.jumps);
        if r != Ok {
          return r, "", c, operands;
        }
        operands := operands + [cur];
        n, prev := n + 1, cur;
        var w1 := Whitespace(s, q);
        var found, q1 := KeywordOperator(s, w1, "and");
        if !found {
          return Ok, cur, w1, operands;
        }
        p := q1;
      }
    }

    /**
     * One operand of a disjunction at `c`: a conjunction and, after the first
     * (`n > 0`), ADD, which needs the previous operand (of type `prev`) and
     * this one to be boolean.
     */
    method Disjunct(s: string, c: CodeLocation, ap: AssignPos, bc: Bytecode, scope: Scope, n: nat, prev: string)
      returns (ret: RetVal, t: string, c': CodeLocation)
      requires InText(s, c) && bc.Valid() && variables.Valid()
      modifies bc
      decreases |s| - c.pos, 79
      ensures InText(s, c') && (ret != Ok ==> c' == c) && (ret == Ok ==> c.pos < c'.pos)
      ensures Extends(bc, old(bc.code), old(bc.jumps)) && bc.variables == old(bc.variables) && bc.functionRefs == old(bc.functionRefs)
      ensures n > 0 ==> ret != FailContinue
      ensures ret == Ok && n > 0 ==> prev == "b" && t == "b" && EndsWith(bc.code, Add)
    {
      var w := Whitespace(s, c);
      var r, cur, q, _ := LogicalAnd(s, w, ap, bc, scope);
      if r != Ok {
        return if n > 0 then FailStop else r, "", c;
      }
      if n > 0 {
        ghost var code1 := bc.code;
        var _ := bc.Emit(Add);
        PrefixTransitive(old(bc.code), code1, bc.code);
        if prev != "b" || cur != "b" {
          return FailStop, "", c;
        }
      }
      return Ok, cur, q;
    }

    /**
     * `logical_or_expression`: conjunctions joined by `or`, each `or`
     * emitted as ADD after its right operand; every operand of a
     * disjunction must be boolean.
     */
    method LogicalOr(s: string, c: CodeLocation, ap: AssignPos, bc: Bytecode, scope: Scope)
      returns (ret: RetVal, t: string, c': CodeLocation, ghost operands: seq<string>)
      requires InText(s, c) && bc.Valid() && variables.Valid()
      modifies bc
      decreases |s| - c.pos, 80
      ensures InText(s, c') && (ret != Ok ==> c' == c) && (ret == Ok ==> c.pos < c'.pos)
      ensures Extends(bc, old(bc.code), old(bc.jumps)) && bc.variables == old(bc.variables) && bc.functionRefs == old(bc.functionRefs)
      ensures ret == Ok ==> |operands| > 0 && t == operands[|operands| - 1]
      ensures ret == Ok && |operands| > 1 ==> AllBooleans(operands) && EndsWith(bc.code, Add)
    {
      operands := [];
      var p := c;
      var n, prev := 0, "";
      while true
        invariant n == |operands| && (n > 0 ==> prev == operands[n - 1])
        invariant InText(s, p) && c.pos <= p.pos && (|operands| > 0 ==> c.pos < p.pos)
        invariant Extends(bc, old(bc.code), old(bc.jumps))
        invariant bc.variables == old(bc.variables) && bc.functionRefs == old(bc.functionRefs)
        invariant |operands| > 1 ==> AllBooleans(operands)
        decreases |s| - p.pos
      {
        ghost var code1, jumps1 := bc.code, bc.jumps;
        var r, cur, q := Disjunct(s, p, ap, bc, scope, n, prev);
        PrefixTransitive(old(bc.code), code1, bc.code);
        PrefixTransitive(old(bc.jumps), jumps1, bc.jumps);
        if r != Ok {
          return r, "", c, operands;
        }
        operands := operands + [cur];
        n, prev := n + 1, cur;
        var w1 := Whitespace(s, q);
        var found, q1 := KeywordOperator(s, w1, "or");
        if !found {
          return Ok, cur, w1, operands;
        }
        p := q1;
      }
    }

    /**
     * `conditional_expression`: a disjunction, optionally followed by
     * `? e1 : e2` when it is boolean.  The code is the condition,
     * JUMPIFFALSE to e2, e1, JUMP past e2, e2; both jump words are
     * registered for relocation and patched once their targets are known.
     * The branches must have consistent types; the result has the wider.
     */
    method Conditional(s: string, c: CodeLocation, ap: AssignPos, bc: Bytecode, scope: Scope)
      returns (ret: RetVal, t: string, c': CodeLocation, ghost br: Branches, ghost condType: string)
      requires InText(s, c) && bc.Valid() && variables.Valid()
      modifies bc
      decreases |s| - c.pos, 90
      ensures InText(s, c') && (ret != Ok ==> c' == c) && (ret == Ok ==> c.pos < c'.pos)
      ensures Extends(bc, old(bc.code), old(bc.jumps)) && bc.variables == old(bc.variables) && bc.functionRefs == old(bc.functionRefs)
      ensures ret == Ok && br.NoBranches? ==> t == condType
      ensures ret == Ok && br.Branches? ==> (condType == "b" && Patched(bc.code, bc.jumps, |old(bc.code)|, br)
        && Consistent(br.trueType, br.falseType) && t == MaxDatatype(br.trueType, br.falseType))
    {
      br := NoBranches;
      var w := Whitespace(s, c);
      var r, ct, p, _ := LogicalOr(s, w, ap, bc, scope);
      condType := ct;
      if r != Ok {
        return r, "", c, br, condType;
      }
      var q := Whitespace(s, p);
      if !CheckSymbol(s, q, '?') {
        return Ok, ct, q, br, condType;
      }
      if ct != "b" {
        return FailStop, "", c, br, condType;
      }
      ghost var code1, jumps1 := bc.code, bc.jumps;
      var r2, t2, p2;
      r2, t2, p2, br := Alternatives(s, Plus(q, 1), ap, bc, scope);
      PrefixTransitive(old(bc.code), code1, bc.code);
      PrefixTransitive(old(bc.jumps), jumps1, bc.jumps);
      if r2 != Ok {
        return FailStop, "", c, br, condType;
      }
      return Ok, t2, p2, br, condType;
    }

    /** A branch of `?:`, which is itself an expression. */
    method Branch(s: string, c: CodeLocation, ap: AssignPos, bc: Bytecode, scope: Scope)
      returns (ret: RetVal, t: string, c': CodeLocation)
      requires InText(s, c) && bc.Valid() && variables.Valid()
      modifies bc
      decreases |s| - c.pos, 91
      ensures InText(s, c') && (ret != Ok ==> c' == c) && (ret == Ok ==> c.pos < c'.pos)
      ensures Extends(bc, old(bc.code), old(bc.jumps)) && bc.variables == old(bc.variables) && bc.functionRefs == old(bc.functionRefs)
    {
      var r, u, p, _, _ := Conditional(s, c, ap, bc, scope);
      return r, u, p;
    }

    /**
     * The two branches of `?:`, the cursor after the '?': the first branch
     * and the JUMPs around it, ':', the second branch, and the JUMP past it
     * patched to the end of the code.
     */
    method Alternatives(s: string, c: CodeLocation, ap: AssignPos, bc: Bytecode, scope: Scope)
      returns (ret: RetVal, t: string, c': CodeLocation, ghost br: Branches)
      requires InText(s, c) && bc.Valid() && variables.Valid()
      modifies bc
      decreases |s| - c.pos, 93
      ensures InText(s, c') && (ret != Ok ==> c' == c) && (ret == Ok ==> c.pos < c'.pos) && ret != FailContinue
      ensures Extends(bc, old(bc.code), old(bc.jumps)) && bc.variables == old(bc.variables) && bc.functionRefs == old(bc.functionRefs)
      ensures ret == Ok ==> (br.Branches? && Patched(bc.code, bc.jumps, |old(bc.code)|, br)
        && Consistent(br.trueType, br.falseType) && t == MaxDatatype(br.trueType, br.falseType))
    {
      br := NoBranches;
      var r2, tt, p2, jl2, jl3, k2, k3 := TrueBranch(s, c, ap, bc, scope);
      if r2 != Ok {
        return FailStop, "", c, br;
      }
      ghost var code2, jumps2 := bc.code, bc.jumps;
      var r3, ft, p3 := Branch(s, p2, ap, bc, scope);
      PrefixTransitive(old(bc.code), code2, bc.code);
      PrefixTransitive(old(bc.jumps), jumps2, bc.jumps);
      if r3 != Ok || !Consistent(tt, ft) {
        return FailStop, "", c, br;
      }
      PrefixWord(code2, bc.code, jl2 + 1);
      assert bc.code[jl2] == code2[jl2] && bc.code[jl3] == code2[jl3];
      assert bc.jumps[k2] == jl2 + 1 && bc.jumps[k3] == jl3 + 1;
      CloseAlternatives(bc, jl2, jl3, k2, k3, old(bc.code), tt, ft);
      br := Branches(jl2, jl3, k2, k3, tt, ft);
      return Ok, MaxDatatype(tt, ft), p3, br;
    }

    /**
     * The first branch of `?:`: JUMPIFFALSE, the branch, JUMP and ':', after
     * which the JUMPIFFALSE is patched to jump to the code that follows.
     * The cursor returned is after the ':'.
     */
    method TrueBranch(s: string, c: CodeLocation, ap: AssignPos, bc: Bytecode, scope: Scope)
      returns (ret: RetVal, t: string, c': CodeLocation, jl2: nat, jl3: nat, ghost k2: nat, ghost k3: nat)
      requires InText(s, c) && bc.Valid() && variables.Valid()
      modifies bc
      decreases |s| - c.pos, 92
      ensures InText(s, c') && (ret != Ok ==> c' == c) && (ret == Ok ==> c.pos < c'.pos) && ret != FailContinue
      ensures Extends(bc, old(bc.code), old(bc.jumps)) && bc.variables == old(bc.variables) && bc.functionRefs == old(bc.functionRefs)
      ensures ret == Ok ==> TrueBranchDone(bc.code, bc.jumps, |old(bc.code)|, jl2, jl3, k2, k3)
    {
      jl3, k3 := 0, 0;
      jl2 := EmitJump(bc, JumpIfFalse(0));
      k2 := |bc.jumps| - 1;
      ghost var code1, jumps1 := bc.code, bc.jumps;
      var r2, tt, p2 := Branch(s, c, ap, bc, scope);
      PrefixTransitive(old(bc.code), code1, bc.code);
      PrefixTransitive(old(bc.jumps), jumps1, bc.jumps);
      if r2 != Ok {
        return FailStop, "", c, jl2, jl3, k2, k3;
      }
      assert bc.code[jl2] == code1[jl2] && bc.jumps[k2] == jumps1[k2];
      jumps1 := bc.jumps;
      var ok, q := CloseTrueBranch(s, p2, bc, jl2, k2, old(bc.code));
      PrefixTransitive(old(bc.jumps), jumps1, bc.jumps);
      if !ok {
        return FailStop, "", c, jl2, jl3, k2, k3;
      }
      jl3, k3 := |bc.code| - 5, |bc.jumps| - 1;
      return Ok, tt, q, jl2, jl3, k2, k3;
    }

    /**
     * `assignment_expression`: a postfix expression on the left, an
     * assignment operator, and an expression on the right whose type the
     * operator accepts.  The operator's MOVE instruction is emitted into a
     * buffer of its own and appended last.
     */
    method Assignment(s: string, c: CodeLocation, bc: Bytecode, scope: Scope)
      returns (ret: RetVal, c': CodeLocation, ghost op: Instr, ghost left: string, ghost right: string)
      requires InText(s, c) && bc.Valid() && variables.Valid()
      modifies bc
      ensures InText(s, c') && (ret != Ok ==> c' == c) && (ret == Ok ==> c.pos < c'.pos)
      ensures Extends(bc, old(bc.code), old(bc.jumps)) && bc.variables == old(bc.variables) && bc.functionRefs == old(bc.functionRefs)
      ensures ret == Ok ==> IsAssignment(op) && AssignmentAllowed(op, left, right) && EndsWith(bc.code, op)
    {
      op, left, right := Nop, "", "";
      var w := Whitespace(s, c);
      var r, lt, p, _ := Postfix(s, w, Left, bc, scope);
      left := lt;
      if r != Ok {
        return r, c, op, left, right;
      }
      var found, o, q := AssignmentOperator(s, p);
      if !found {
        return FailStop, c, op, left, right;
      }
      op := o;
      ghost var code1, jumps1 := bc.code, bc.jumps;
      var r2, p2;
      r2, p2, right := AssignedValue(s, q, bc, scope, o, lt);
      PrefixTransitive(old(bc.code), code1, bc.code);
      PrefixTransitive(old(bc.jumps), jumps1, bc.jumps);
      if r2 != Ok {
        return FailStop, c, op, left, right;
      }
      return Ok, p2, op, left, right;
    }

    /**
     * The right side of the assignment `op` to a target of type `lt`: the
     * operator's instruction is emitted into a buffer of its own, the value
     * is parsed into `bc`, and the buffer is appended after it when the
     * operator accepts the value's type.
     */
    method AssignedValue(s: string, c: CodeLocation, bc: Bytecode, scope: Scope, op: Instr, lt: string)
      returns (ret: RetVal, c': CodeLocation, ghost right: string)
      requires InText(s, c) && bc.Valid() && variables.Valid() && IsAssignment(op)
      modifies bc
      ensures InText(s, c') && (ret != Ok ==> c' == c) && (ret == Ok ==> c.pos < c'.pos) && ret != FailContinue
      ensures Extends(bc, old(bc.code), old(bc.jumps)) && bc.variables == old(bc.variables) && bc.functionRefs == old(bc.functionRefs)
      ensures ret == Ok ==> AssignmentAllowed(op, lt, right) && EndsWith(bc.code, op)
    {
      var opc := new Bytecode();
      var _ := opc.Emit(op);
      var r, rt, p, _, _ := Conditional(s, c, Right, bc, scope);
      right := rt;
      if r != Ok || !AssignmentAllowed(op, lt, rt) {
        return FailStop, c, right;
      }
      ghost var code1 := bc.code;
      AppendInstruction(bc, opc, op);
      PrefixTransitive(old(bc.code), code1, bc.code);
      return Ok, p, right;
    }


    // -------------------------------------------------------------------
    // Declarations and statements
    // -------------------------------------------------------------------

    /**
     * `variable_declaration`: a type, then a name not declared in exactly
     * this scope.  The name is added as a static or a dynamic variable
     * recorded at the start of the declaration, and its index is appended
     * to `fv`, the variables of the enclosing function.
     */
    method VariableDeclaration(s: string, c: CodeLocation, scope: Scope, mode: DataMode, fv: seq<u32>)
      returns (ret: RetVal, t: string, idx: u32, c': CodeLocation, fv': seq<u32>,
               ghost name: string, ghost d: TypeDecl, ghost q: CodeLocation)
      requires InText(s, c) && variables.Valid()
      modifies variables
      ensures InText(s, c') && (ret != Ok ==> c' == c) && (ret == Ok ==> c.pos < c'.pos)
      ensures variables.Valid()
      ensures ret == FailContinue <==> NoTypeAt(s, c)
      ensures ret != Ok ==> variables.variables == old(variables.variables) && fv' == fv
      ensures ret == Ok ==> (ValidDecl(d) && t == TypeString(d) && InText(s, q) && NameAt(s, q)
        && (name, c') == Lexer.WordAt(s, q).value)
      ensures ret == Ok ==> (FindSame(old(variables.variables), Missing(name).(scope := scope)).None?
        && idx == ToU32(|old(variables.variables)|) && fv' == fv + [idx]
        && variables.variables == old(variables.variables) + [NewVariable(DeclaredKind(mode), scope, name, t, "", c).(idx := |old(variables.variables)|)])
    {
      name, d, q := "", Simple('i'), c;
      var w := Whitespace(s, c);
      WhitespaceIdempotent(s, c);
      var r, dt, p;
      r, dt, p, d := TypeDeclaration(s, w);
      t := dt;
      if r != Ok {
        return r, t, 0, c, fv, name, d, q;
      }
      q := p;
      var r2, n, p2 := ScanIdentifier(s, p);
      name := n;
      if r2 != Ok {
        return FailStop, t, 0, c, fv, name, d, q;
      }
      var found, v := variables.GetVariable(scope, Exact, n);
      if v.idx != -1 {
        return FailStop, t, 0, c, fv, name, d, q;
      }
      var entry := NewVariable(DeclaredKind(mode), scope, n, dt, "", c);
      FindSameByKey(variables.variables, entry, Missing(n).(scope := scope));
      var added, pos := variables.Add(entry);
      // The exact lookup found no entry with this scope and name, so the addition cannot fail.
      assert added;
      idx := ToU32(pos);
      return Ok, t, idx, p2, fv + [idx], name, d, q;
    }

    /**
     * `function_parameters_declaration`: one or more dynamic variable
     * declarations separated by commas; their types are joined with
     * commas.  A declaration missing after a comma stops the parse.
     */
    method FunctionParameters(s: string, c: CodeLocation, scope: Scope, idxs: seq<u32>)
      returns (ret: RetVal, types: string, c': CodeLocation, idxs': seq<u32>, ghost ts: seq<string>)
      requires InText(s, c) && variables.Valid()
      modifies variables
      ensures InText(s, c') && (ret != Ok ==> c' == c) && (ret == Ok ==> c.pos < c'.pos)
      ensures variables.Valid() && TableGrows(old(variables.variables), variables.variables)
      ensures ret == FailContinue <==> NoTypeAt(s, c)
      ensures ret == Ok ==> (|ts| > 0 && types == Join(ts, ',')
        && |variables.variables| == |old(variables.variables)| + |ts|
        && ParametersAt(variables.variables, |old(variables.variables)|, scope, ts)
        && idxs' == idxs + NewIndexes(|old(variables.variables)|, |ts|))
      ensures ret == Ok ==> SkipWhitespace(s, c') == c' && !CheckSymbol(s, c', ',')
    {
      ghost var n0 := |variables.variables|;
      var p := c;
      types, idxs', ts := "", idxs, [];
      var more := false;
      while true
        invariant more <==> |ts| > 0
        invariant InText(s, p) && (p == c || c.pos < p.pos)
        invariant variables.Valid() && TableGrows(old(variables.variables), variables.variables)
        invariant |variables.variables| == n0 + |ts|
        invariant ParametersAt(variables.variables, n0, scope, ts)
        invariant idxs' == idxs + NewIndexes(n0, |ts|)
        invariant |ts| == 0 ==> p == c && types == ""
        invariant |ts| > 0 ==> c.pos < p.pos && types == Join(ts, ',') + "," && !NoTypeAt(s, c)
        decreases |s| - p.pos
      {
        ghost var vs, ts0, idxs0 := variables.variables, ts, idxs';
        var r, vt, idx, q, v := Parameter(s, p, scope);
        if r != Ok {
          return if more then FailStop else r, "", c, idxs', ts;
        }
        if |ts| > 0 {
          JoinSnoc(ts, vt, ',');
          SeqAssoc(Join(ts, ','), ",", vt);
        } else {
          assert ts + [vt] == [vt];
        }
        assert types + vt == Join(ts + [vt], ',');
        ParametersAtSnoc(vs, n0, scope, ts0, v, vt);
        assert NewIndexes(n0, |ts0| + 1) == NewIndexes(n0, |ts0|) + [idx];
        SeqAssoc(idxs, NewIndexes(n0, |ts0|), [idx]);
        ts, types, idxs', more := ts + [vt], types + vt, idxs' + [idx], true;
        var w2 := Whitespace(s, q);
        if !CheckSymbol(s, w2, ',') {
          WhitespaceIdempotent(s, q);
          return Ok, types, w2, idxs', ts;
        }
        types, p := types + ",", Plus(w2, 1);
      }
    }

    /**
     * One declaration of `function_parameters_declaration`, after white
     * space: a dynamic variable of `scope`.
     */
    method Parameter(s: string, p: CodeLocation, scope: Scope)
      returns (ret: RetVal, t: string, idx: u32, q: CodeLocation, ghost v: VariableInfo)
      requires InText(s, p) && variables.Valid()
      modifies variables
      ensures InText(s, q) && (ret == Ok ==> p.pos < q.pos)
      ensures variables.Valid()
      ensures ret == FailContinue <==> NoTypeAt(s, p)
      ensures ret != Ok ==> variables.variables == old(variables.variables)
      ensures ret == Ok ==> (variables.variables == old(variables.variables) + [v] && idx == ToU32(|old(variables.variables)|)
        && v.entityType == EntityType.DynamicVariable && v.scope == scope && v.typeString == t)
    {
      var w := Whitespace(s, p);
      WhitespaceIdempotent(s, p);
      var r, vt, i, q', _, name, _, _ := VariableDeclaration(s, w, scope, Dynamic, []);
      v := NewVariable(DeclaredKind(Dynamic), scope, name, vt, "", w).(idx := |old(variables.variables)|);
      return r, vt, i, q', v;
    }

    /** `initVars`: INITVAR for every variable declared in exactly `scope`, in table order. */
    method InitVars(bc: Bytecode, scope: Scope)
      modifies bc
      ensures bc.code == old(bc.code) + Listing(InitInstrs(variables.variables, scope))
      ensures bc.variables == old(bc.variables) && bc.jumps == old(bc.jumps) && bc.functionRefs == old(bc.functionRefs)
      ensures old(bc.Valid()) ==> bc.Valid()
    {
      var vs := variables.variables;
      var i := 0;
      while i < |vs|
        invariant 0 <= i <= |vs|
        invariant bc.code == old(bc.code) + Listing(InitInstrs(vs[..i], scope))
        invariant bc.variables == old(bc.variables) && bc.jumps == old(bc.jumps) && bc.functionRefs == old(bc.functionRefs)
        invariant old(bc.Valid()) ==> bc.Valid()
      {
        EmitInitVar(bc, vs, i, scope, old(bc.code));
        i := i + 1;
      }
      assert vs[..i] == vs;
    }

    /**
     * The start of `function_definition`: the keyword `function`, then a
     * name with no entry in exactly the parent scope.
     */
    method FunctionName(s: string, c: CodeLocation, parent: Scope) returns (ret: RetVal, name: string, c': CodeLocation)
      requires InText(s, c) && variables.Valid()
      ensures InText(s, c') && (ret != Ok ==> c' == c) && (ret == Ok ==> c.pos < c'.pos)
      ensures ret == FailContinue <==> !FunctionKeywordAt(s, c)
      ensures ret == Ok ==> FindSame(variables.variables, Missing(name).(scope := parent)).None?
    {
      var w := Whitespace(s, c);
      var ok, p := CheckString(s, w, "function");
      var term := false;
      if ok {
        term := IsTerminal(s, p);
      }
      if !(ok && term) {
        return FailContinue, "", c;
      }
      var r, n, p1 := ScanIdentifier(s, p);
      if r != Ok {
        return FailStop, "", c;
      }
      var found, v := variables.GetVariable(parent, Exact, n);
      if v.idx != -1 {
        return FailStop, "", c;
      }
      return Ok, n, p1;
    }

    /**
     * The optional parameter list of `function_definition`: '(' right
     * after the name, the parameters as dynamic variables of the scope
     * parent + name, then ')' after white space.  Without '(' there are no
     * parameters and the body lies in the parent scope itself.
     */
    method SignatureParameters(s: string, c: CodeLocation, parent: Scope, name: string)
      returns (ret: RetVal, scope: Scope, params: seq<u32>, ptypes: string, c': CodeLocation, ghost ts: seq<string>)
      requires InText(s, c) && variables.Valid()
      modifies variables
      ensures InText(s, c') && (ret != Ok ==> c' == c) && c.pos <= c'.pos && ret != FailContinue
      ensures variables.Valid() && TableGrows(old(variables.variables), variables.variables)
      ensures ret == Ok ==> ((CheckSymbol(s, c, '(') <==> |ts| > 0)
        && scope == (if |ts| > 0 then Symbols.Add(parent, name) else parent)
        && |variables.variables| == |old(variables.variables)| + |ts|
        && ParametersAt(variables.variables, |old(variables.variables)|, scope, ts)
        && params == NewIndexes(|old(variables.variables)|, |ts|) && ptypes == Join(ts, ','))
    {
      ts := [];
      if !CheckSymbol(s, c, '(') {
        return Ok, parent, [], "", c, ts;
      }
      scope := Symbols.Add(parent, name);
      var r, types, p, idxs;
      r, types, p, idxs, ts := FunctionParameters(s, Plus(c, 1), scope, []);
      if r != Ok {
        return FailStop, scope, [], "", c, ts;
      }
      var w := Whitespace(s, p);
      if !CheckSymbol(s, w, ')') {
        return FailStop, scope, [], "", c, ts;
      }
      return Ok, scope, idxs, types, Plus(w, 1), ts;
    }

    /**
     * The optional `of <type>` of `function_definition`.  A typed function
     * is added to the table as a function of the parent scope recorded at
     * `start`; ALLOCVAR of its entry, the cell of its return value, is
     * emitted into `fbc` and registered as the function's entry point, and
     * ALLOCVARS of each parameter follows, the last first.  An untyped
     * function is neither added nor allocated.
     */
    method FunctionType(s: string, c: CodeLocation, start: CodeLocation, fbc: Bytecode, parent: Scope,
                        name: string, params: seq<u32>, ptypes: string)
      returns (ret: RetVal, typed: bool, t: string, fvp: u32, c': CodeLocation, ghost entry: nat)
      requires InText(s, c) && variables.Valid() && fbc.Valid() && RefsBelow(fbc.functionRefs, |variables.variables|)
      modifies variables, fbc
      ensures InText(s, c') && (ret != Ok ==> c' == c) && c.pos <= c'.pos && ret != FailContinue
      ensures variables.Valid() && fbc.Valid() && fbc.variables == old(fbc.variables) && fbc.jumps == old(fbc.jumps)
      ensures TableGrows(old(variables.variables), variables.variables) && RefsBelow(fbc.functionRefs, |variables.variables|)
      ensures ret != Ok || !typed ==>
        variables.variables == old(variables.variables) && fbc.code == old(fbc.code) && fbc.functionRefs == old(fbc.functionRefs)
      ensures ret == Ok && !typed ==> fvp == 0
      ensures ret == Ok && typed ==> (entry == |old(variables.variables)| && fvp == ToU32(entry)
        && variables.variables == old(variables.variables) + [NewVariable(EntityType.Function, parent, name, t, ptypes, start).(idx := entry)]
        && fbc.code == old(fbc.code) + Listing([AllocVar(fvp)] + ParamAllocs(params))
        && fbc.functionRefs == old(fbc.functionRefs) + [FunctionRef(fvp, |old(fbc.code)|)])
    {
      entry := 0;
      var w := Whitespace(s, c);
      var of, p := CheckString(s, w, "of");
      typed := false;
      if of {
        typed := IsTerminal(s, p);
      }
      if !typed {
        return Ok, false, "", 0, p, entry;
      }
      var r, ft, p2, _ := TypeDeclaration(s, p);
      t := ft;
      if r != Ok {
        return FailStop, true, t, 0, c, entry;
      }
      var added, pos := variables.Add(NewVariable(EntityType.Function, parent, name, ft, ptypes, start));
      if !added {
        return FailStop, true, t, 0, c, entry;
      }
      entry := pos;
      fvp := ToU32(pos);
      EmitFunctionHead(fbc, fvp, params);
      RefsBelowMono(old(fbc.functionRefs), |old(variables.variables)|, |variables.variables|);
      return Ok, true, t, fvp, p2, entry;
    }

    /**
     * The head of `function_definition`: name, parameters and type, with
     * their entries in the table and, for a typed function, its
     * ALLOCVAR, its fix-up and its ALLOCVARS in `fbc`.
     */
    method FunctionSignature(s: string, c: CodeLocation, fbc: Bytecode, parent: Scope)
      returns (ret: RetVal, c': CodeLocation, sig: Signature, ghost entry: nat)
      requires InText(s, c) && variables.Valid() && fbc.Valid() && RefsBelow(fbc.functionRefs, |variables.variables|)
      modifies variables, fbc
      ensures InText(s, c') && (ret != Ok ==> c' == c) && (ret == Ok ==> c.pos < c'.pos)
      ensures variables.Valid() && TableGrows(old(variables.variables), variables.variables)
      ensures RefsBelow(fbc.functionRefs, |variables.variables|)
      ensures fbc.Valid() && fbc.variables == old(fbc.variables) && fbc.jumps == old(fbc.jumps)
      ensures ret == FailContinue <==> !FunctionKeywordAt(s, c)
      ensures ret == FailContinue ==> variables.variables == old(variables.variables)
      ensures ret != Ok || !sig.typed ==> fbc.code == old(fbc.code) && fbc.functionRefs == old(fbc.functionRefs)
      ensures ret == Ok && !sig.typed ==> sig.funVarPos == 0
      ensures ret == Ok && sig.typed ==> (entry < |variables.variables|
        && variables.variables[entry] == NewVariable(EntityType.Function, parent, sig.name, sig.typeString, sig.paramTypes, c).(idx := entry)
        && sig.funVarPos == ToU32(entry)
        && fbc.code == old(fbc.code) + Listing([AllocVar(sig.funVarPos)] + ParamAllocs(sig.params))
        && fbc.functionRefs == old(fbc.functionRefs) + [FunctionRef(sig.funVarPos, |old(fbc.code)|)])
    {
      sig, entry := Signature("", parent, false, "", 0, [], ""), 0;
      var r, name, p := FunctionName(s, c, parent);
      if r != Ok {
        return r, c, sig, entry;
      }
      var r2, scope, params, ptypes, p2, _ := SignatureParameters(s, p, parent, name);
      if r2 != Ok {
        return FailStop, c, sig, entry;
      }
      ghost var vs := variables.variables;
      RefsBelowMono(fbc.functionRefs, |old(variables.variables)|, |vs|);
      var r3, typed, t, fvp, p3;
      r3, typed, t, fvp, p3, entry := FunctionType(s, p2, c, fbc, parent, name, params, ptypes);
      if r3 != Ok {
        return FailStop, c, sig, entry;
      }
      sig := Signature(name, scope, typed, t, fvp, params, ptypes);
      TableGrowsTransitive(old(variables.variables), vs, variables.variables);
      return Ok, p3, sig, entry;
    }

    /**
     * `function_definition`: the head, then a block in the function's
     * scope with dynamic variables.  The function's code, appended to
     * `fbc`, is its prologue (for a typed function: ALLOCVAR of its entry
     * and ALLOCVARS of its parameters; then ALLOCVAR of each variable the
     * body declares), the body, RETURN of its entry, and the code of the
     * functions defined inside it.
     */
    method FunctionDefinition(s: string, c: CodeLocation, fbc: Bytecode, parent: Scope)
      returns (ret: RetVal, c': CodeLocation, ghost sig: Signature, ghost locals: seq<u32>, ghost bodyLen: nat, ghost entry: nat)
      requires InText(s, c) && variables.Valid() && fbc.Valid() && RefsBelow(fbc.functionRefs, |variables.variables|)
      modifies variables, fbc
      ensures InText(s, c') && (ret != Ok ==> c' == c) && (ret == Ok ==> c.pos < c'.pos)
      ensures variables.Valid() && TableGrows(old(variables.variables), variables.variables)
      ensures Extends(fbc, old(fbc.code), old(fbc.jumps)) && fbc.variables == old(fbc.variables)
      ensures old(fbc.functionRefs) <= fbc.functionRefs && RefsBelow(fbc.functionRefs, |variables.variables|)
      ensures ret == FailContinue <==> !FunctionKeywordAt(s, c)
      ensures ret == Ok ==> (FunctionLaidOut(fbc.code, |old(fbc.code)|, SignaturePrologue(sig, locals), bodyLen, sig.funVarPos)
        && ClosedBefore(s, c'))
      ensures ret == Ok && sig.typed ==> (|old(fbc.functionRefs)| < |fbc.functionRefs|
        && fbc.functionRefs[|old(fbc.functionRefs)|] == FunctionRef(sig.funVarPos, |old(fbc.code)|)
        && FunctionEntry(variables.variables, entry, parent, sig))
      decreases |s| - c.pos, 2
    {
      locals, bodyLen := [], 0;
      var r, p, sg, e := FunctionSignature(s, c, fbc, parent);
      sig, entry := sg, e;
      if r != Ok {
        return r, c, sig, locals, bodyLen, entry;
      }
      ghost var code1, jumps1, refs1, vs1 := fbc.code, fbc.jumps, fbc.functionRefs, variables.variables;
      var r2, p2, fv, bl, body, nested := FunctionBody(s, p, fbc, sg.scope, sg.funVarPos);
      locals, bodyLen := fv, bl;
      TableGrowsTransitive(old(variables.variables), vs1, variables.variables);
      PrefixTransitive(old(fbc.functionRefs), refs1, fbc.functionRefs);
      PrefixTransitive(old(fbc.code), code1, fbc.code);
      if r2 != Ok {
        return FailStop, c, sig, locals, bodyLen, entry;
      }
      ghost var head := if sg.typed then [AllocVar(sg.funVarPos)] + ParamAllocs(sg.params) else [];
      assert code1 == old(fbc.code) + Listing(head);
      FunctionLaidOutFrom(old(fbc.code), head, LocalAllocs(fv), body, sg.funVarPos, nested);
      assert head + LocalAllocs(fv) == SignaturePrologue(sig, locals);
      if sg.typed {
        assert FunctionEntry(vs1, entry, parent, sig);
        FunctionEntryKept(vs1, variables.variables, entry, parent, sig);
        assert fbc.functionRefs[|old(fbc.functionRefs)|] == refs1[|old(fbc.functionRefs)|];
      }
      return Ok, p2, sig, locals, bodyLen, entry;
    }

    /**
     * The body of `function_definition`: a block in the function's scope
     * with dynamic variables, compiled into buffers of its own and appended
     * to `fbc` as ALLOCVAR of each variable the block declares, the
     * block's code, RETURN of the function's entry `fvp`, and the code of
     * the functions defined inside the block.
     */
    method FunctionBody(s: string, c: CodeLocation, fbc: Bytecode, scope: Scope, fvp: u32)
      returns (ret: RetVal, c': CodeLocation, locals: seq<u32>, ghost bodyLen: nat, ghost body: seq<byte>, ghost nested: seq<byte>)
      requires InText(s, c) && variables.Valid() && fbc.Valid() && RefsBelow(fbc.functionRefs, |variables.variables|)
      modifies variables, fbc
      ensures InText(s, c') && (ret != Ok ==> c' == c) && (ret == Ok ==> c.pos < c'.pos)
      ensures variables.Valid() && TableGrows(old(variables.variables), variables.variables)
      ensures Extends(fbc, old(fbc.code), old(fbc.jumps)) && fbc.variables == old(fbc.variables)
      ensures old(fbc.functionRefs) <= fbc.functionRefs && RefsBelow(fbc.functionRefs, |variables.variables|)
      ensures ret == Ok ==> (fbc.code == old(fbc.code) + Listing(LocalAllocs(locals)) + body + Encode(Return(fvp)) + nested
        && |body| == bodyLen && ClosedBefore(s, c'))
      decreases |s| - c.pos, 2
    {
      bodyLen, body, nested := 0, [], [];
      var sbc := new Bytecode();
      var sfbc := new Bytecode();
      ghost var vs0 := variables.variables;
      var r, p, fv := BlockStatement(s, c, sbc, sfbc, scope, Dynamic, []);
      RefsBelowMono(fbc.functionRefs, |vs0|, |variables.variables|);
      locals := fv;
      if r != Ok {
        return FailStop, c, locals, bodyLen, body, nested;
      }
      bodyLen := |sbc.code|;
      body, nested := EmitFunctionBody(fbc, fv, sbc, fvp, sfbc, |variables.variables|);
      return Ok, p, locals, bodyLen, body, nested;
    }

    /** `block_statement`: '{', the statements of a nested scope, and '}'. */
    method BlockStatement(s: string, c: CodeLocation, bc: Bytecode, fbc: Bytecode, scope: Scope, mode: DataMode, fv: seq<u32>)
      returns (ret: RetVal, c': CodeLocation, fv': seq<u32>)
      requires InText(s, c) && variables.Valid() && bc.Valid() && fbc.Valid() && bc != fbc
      requires RefsBelow(fbc.functionRefs, |variables.variables|)
      modifies variables, bc, fbc
      ensures InText(s, c') && (ret != Ok ==> c' == c) && (ret == Ok ==> c.pos < c'.pos)
      ensures variables.Valid() && TableGrows(old(variables.variables), variables.variables)
      ensures Extends(bc, old(bc.code), old(bc.jumps)) && bc.variables == old(bc.variables) && bc.functionRefs == old(bc.functionRefs)
      ensures Extends(fbc, old(fbc.code), old(fbc.jumps)) && fbc.variables == old(fbc.variables)
      ensures old(fbc.functionRefs) <= fbc.functionRefs && RefsBelow(fbc.functionRefs, |variables.variables|)
      ensures ret == FailContinue <==> !CheckSymbol(s, SkipWhitespace(s, c), '{')
      ensures ret == Ok ==> ClosedBefore(s, c')
      decreases |s| - c.pos, 1
    {
      var w := Whitespace(s, c);
      if !CheckSymbol(s, w, '{') {
        return FailContinue, c, fv;
      }
      var r, p;
      r, p, fv' := TranslationUnit(s, Plus(w, 1), bc, fbc, scope, mode, fv);
      if r != Ok || !CheckSymbol(s, p, '}') {
        return FailStop, c, fv';
      }
      return Ok, Plus(p, 1), fv';
    }

    /**
     * `translation_unit`: statements up to the end of the text, which
     * appends END, or, outside the root scope, up to a '}', which does
     * not.  Each statement is compiled into buffers of its own; code goes
     * to `bc` and the functions to `fbc`.
     */
    method TranslationUnit(s: string, c: CodeLocation, bc: Bytecode, fbc: Bytecode, scope: Scope, mode: DataMode, fv: seq<u32>)
      returns (ret: RetVal, c': CodeLocation, fv': seq<u32>)
      requires InText(s, c) && variables.Valid() && bc.Valid() && fbc.Valid() && bc != fbc
      requires RefsBelow(fbc.functionRefs, |variables.variables|)
      modifies variables, bc, fbc
      ensures InText(s, c') && (ret != Ok ==> c' == c) && c.pos <= c'.pos
      ensures variables.Valid() && TableGrows(old(variables.variables), variables.variables)
      ensures Extends(bc, old(bc.code), old(bc.jumps)) && bc.variables == old(bc.variables) && bc.functionRefs == old(bc.functionRefs)
      ensures Extends(fbc, old(fbc.code), old(fbc.jumps)) && fbc.variables == old(fbc.variables)
      ensures old(fbc.functionRefs) <= fbc.functionRefs && RefsBelow(fbc.functionRefs, |variables.variables|)
      ensures ret == Ok ==> (|s| <= c'.pos && EndsWith(bc.code, End)) || (!IsRoot(scope) && CheckSymbol(s, c', '}'))
      decreases |s| - c.pos, 6
    {
      var sbc := new Bytecode();
      var sfbc := new Bytecode();
      var count := 0;
      var p := Whitespace(s, c);
      fv' := fv;
      while true
        invariant InText(s, p) && c.pos <= p.pos
        invariant fresh(sbc) && fresh(sfbc) && sbc != sfbc
        invariant variables.Valid() && TableGrows(old(variables.variables), variables.variables)
        invariant Extends(bc, old(bc.code), old(bc.jumps)) && bc.variables == old(bc.variables) && bc.functionRefs == old(bc.functionRefs)
        invariant Extends(fbc, old(fbc.code), old(fbc.jumps)) && fbc.variables == old(fbc.variables)
        invariant old(fbc.functionRefs) <= fbc.functionRefs && RefsBelow(fbc.functionRefs, |variables.variables|)
        decreases |s| - p.pos
      {
        ghost var vs, code0, jumps0, fcode0, fjumps0, frefs0 := variables.variables, bc.code, bc.jumps, fbc.code, fbc.jumps, fbc.functionRefs;
        var r, closed, q, n, fv2 := Statement(s, p, bc, fbc, sbc, sfbc, scope, mode, count, fv');
        TableGrowsTransitive(old(variables.variables), vs, variables.variables);
        PrefixTransitive(old(bc.code), code0, bc.code);
        PrefixTransitive(old(bc.jumps), jumps0, bc.jumps);
        PrefixTransitive(old(fbc.code), fcode0, fbc.code);
        PrefixTransitive(old(fbc.jumps), fjumps0, fbc.jumps);
        PrefixTransitive(old(fbc.functionRefs), frefs0, fbc.functionRefs);
        if r != Ok {
          return r, c, fv2;
        }
        if closed {
          return Ok, q, fv2;
        }
        count, fv' := n, fv2;
        p := Whitespace(s, q);
        if |s| <= p.pos {
          break;
        }
      }
      ghost var code1 := bc.code;
      var _ := bc.Emit(End);
      PrefixTransitive(old(bc.code), code1, bc.code);
      return Ok, p, fv';
    }

    /**
     * One statement of `translation_unit`, the alternatives tried in
     * order: an assignment, a variable declaration, a block (a sub-scope
     * named by the count of blocks and functions before it, whose variables
     * are initialised right before its code), a function definition, and,
     * outside the root scope, a closing '}' (`closed`).  The statement is
     * compiled into `sbc` and `sfbc`, cleared first.
     */
    method Statement(s: string, c: CodeLocation, bc: Bytecode, fbc: Bytecode, sbc: Bytecode, sfbc: Bytecode,
                     scope: Scope, mode: DataMode, count: nat, fv: seq<u32>)
      returns (ret: RetVal, closed: bool, c': CodeLocation, count': nat, fv': seq<u32>)
      requires InText(s, c) && variables.Valid() && bc.Valid() && fbc.Valid()
      requires bc != fbc && bc != sbc && bc != sfbc && fbc != sbc && fbc != sfbc && sbc != sfbc
      requires RefsBelow(fbc.functionRefs, |variables.variables|)
      modifies variables, bc, fbc, sbc, sfbc
      ensures InText(s, c') && (ret != Ok || closed ==> c' == c) && (ret == Ok && !closed ==> c.pos < c'.pos)
      ensures variables.Valid() && TableGrows(old(variables.variables), variables.variables)
      ensures Extends(bc, old(bc.code), old(bc.jumps)) && bc.variables == old(bc.variables) && bc.functionRefs == old(bc.functionRefs)
      ensures Extends(fbc, old(fbc.code), old(fbc.jumps)) && fbc.variables == old(fbc.variables)
      ensures old(fbc.functionRefs) <= fbc.functionRefs && RefsBelow(fbc.functionRefs, |variables.variables|)
      ensures closed ==> ret == Ok && !IsRoot(scope) && CheckSymbol(s, c, '}')
      ensures count' == count || count' == count + 1
      decreases |s| - c.pos, 5
    {
      sbc.Clear();
      sfbc.Clear();
      ghost var vs0 := variables.variables;
      var r, p, fv2 := SimpleStatement(s, c, bc, sbc, scope, mode, fv);
      if r == Ok {
        RefsBelowMono(fbc.functionRefs, |vs0|, |variables.variables|);
        return Ok, false, p, count, fv2;
      }
      if r == FailStop {
        RefsBelowMono(fbc.functionRefs, |vs0|, |variables.variables|);
        return r, false, c, count, fv;
      }
      ghost var vs1 := variables.variables;
      RefsBelowMono(fbc.functionRefs, |vs0|, |vs1|);
      ret, closed, c', count', fv' := CompoundStatement(s, c, bc, fbc, sbc, sfbc, scope, mode, count, fv);
      TableGrowsTransitive(old(variables.variables), vs1, variables.variables);
    }

    /**
     * The alternatives of a statement after the simple ones: a block, a
     * function definition, or outside the root scope a closing '}'.
     */
    method CompoundStatement(s: string, c: CodeLocation, bc: Bytecode, fbc: Bytecode, sbc: Bytecode, sfbc: Bytecode,
                             scope: Scope, mode: DataMode, count: nat, fv: seq<u32>)
      returns (ret: RetVal, closed: bool, c': CodeLocation, count': nat, fv': seq<u32>)
      requires InText(s, c) && variables.Valid() && bc.Valid() && fbc.Valid() && sbc.Valid() && sfbc.Valid()
      requires bc != fbc && bc != sbc && bc != sfbc && fbc != sbc && fbc != sfbc && sbc != sfbc
      requires sbc.functionRefs == [] && sfbc.functionRefs == []
      requires RefsBelow(fbc.functionRefs, |variables.variables|)
      modifies variables, bc, fbc, sbc, sfbc
      ensures InText(s, c') && (ret != Ok || closed ==> c' == c) && (ret == Ok && !closed ==> c.pos < c'.pos)
      ensures variables.Valid() && TableGrows(old(variables.variables), variables.variables)
      ensures Extends(bc, old(bc.code), old(bc.jumps)) && bc.variables == old(bc.variables) && bc.functionRefs == old(bc.functionRefs)
      ensures Extends(fbc, old(fbc.code), old(fbc.jumps)) && fbc.variables == old(fbc.variables)
      ensures old(fbc.functionRefs) <= fbc.functionRefs && RefsBelow(fbc.functionRefs, |variables.variables|)
      ensures closed ==> ret == Ok && !IsRoot(scope) && CheckSymbol(s, c, '}')
      ensures count' == count || count' == count + 1
      decreases |s| - c.pos, 4
    {
      var r, p, fv2 := BlockAlternative(s, c, bc, fbc, sbc, sfbc, scope, mode, count, fv);
      if r == Ok {
        return Ok, false, p, count + 1, fv2;
      }
      if r == FailStop {
        return r, false, c, count, fv;
      }
      ghost var vs1 := variables.variables;
      r, p := FunctionAlternative(s, c, fbc, sbc, sfbc, scope);
      TableGrowsTransitive(old(variables.variables), vs1, variables.variables);
      if r == Ok {
        return Ok, false, p, count + 1, fv;
      }
      if r == FailContinue && !IsRoot(scope) && CheckSymbol(s, c, '}') {
        return Ok, true, c, count, fv;
      }
      return r, false, c, count, fv;
    }

    /**
     * The first two alternatives of a statement: an assignment compiled
     * into `sbc`, or a variable declaration; either way `sbc`, which may
     * hold code from a failed attempt at an assignment, is appended to `bc`.
     */
    method SimpleStatement(s: string, c: CodeLocation, bc: Bytecode, sbc: Bytecode, scope: Scope, mode: DataMode, fv: seq<u32>)
      returns (ret: RetVal, c': CodeLocation, fv': seq<u32>)
      requires InText(s, c) && variables.Valid() && bc.Valid() && sbc.Valid() && bc != sbc && sbc.functionRefs == []
      modifies variables, bc, sbc
      ensures InText(s, c') && (ret != Ok ==> c' == c) && (ret == Ok ==> c.pos < c'.pos)
      ensures variables.Valid() && TableGrows(old(variables.variables), variables.variables)
      ensures Extends(bc, old(bc.code), old(bc.jumps)) && bc.variables == old(bc.variables) && bc.functionRefs == old(bc.functionRefs)
      ensures ret != Ok ==> (bc.code == old(bc.code) && bc.jumps == old(bc.jumps) && sbc.Valid() && sbc.functionRefs == [])
    {
      var r, p, _, _, _ := Assignment(s, c, sbc, scope);
      if r == Ok {
        Absorb(bc, sbc);
        return Ok, p, fv;
      }
      if r == FailContinue {
        var r2, _, _, p2, fv2, _, _, _ := VariableDeclaration(s, c, scope, mode, fv);
        r := r2;
        if r2 == Ok {
          Absorb(bc, sbc);
          return Ok, p2, fv2;
        }
      }
      return r, c, fv;
    }

    /**
     * The block alternative of a statement: a block in the sub-scope
     * scope + count, compiled into `sbc` and `sfbc`; on success the
     * INITVARs of the sub-scope and `sbc` go to `bc`, and `sfbc` to `fbc`.
     */
    method BlockAlternative(s: string, c: CodeLocation, bc: Bytecode, fbc: Bytecode, sbc: Bytecode, sfbc: Bytecode,
                            scope: Scope, mode: DataMode, count: nat, fv: seq<u32>)
      returns (ret: RetVal, c': CodeLocation, fv': seq<u32>)
      requires InText(s, c) && variables.Valid() && bc.Valid() && fbc.Valid() && sbc.Valid() && sfbc.Valid()
      requires bc != fbc && bc != sbc && bc != sfbc && fbc != sbc && fbc != sfbc && sbc != sfbc
      requires sbc.functionRefs == [] && sfbc.functionRefs == []
      requires RefsBelow(fbc.functionRefs, |variables.variables|)
      modifies variables, bc, fbc, sbc, sfbc
      ensures InText(s, c') && (ret != Ok ==> c' == c) && (ret == Ok ==> c.pos < c'.pos)
      ensures variables.Valid() && TableGrows(old(variables.variables), variables.variables)
      ensures Extends(bc, old(bc.code), old(bc.jumps)) && bc.variables == old(bc.variables) && bc.functionRefs == old(bc.functionRefs)
      ensures Extends(fbc, old(fbc.code), old(fbc.jumps)) && fbc.variables == old(fbc.variables)
      ensures old(fbc.functionRefs) <= fbc.functionRefs && RefsBelow(fbc.functionRefs, |variables.variables|)
      ensures ret == FailContinue <==> !CheckSymbol(s, SkipWhitespace(s, c), '{')
      ensures ret != Ok ==> (bc.code == old(bc.code) && bc.jumps == old(bc.jumps)
        && fbc.code == old(fbc.code) && fbc.jumps == old(fbc.jumps) && fbc.functionRefs == old(fbc.functionRefs)
        && sbc.Valid() && sbc.functionRefs == [] && sfbc.Valid() && RefsBelow(sfbc.functionRefs, |variables.variables|))
      decreases |s| - c.pos, 2
    {
      var sub := Symbols.Add(scope, DecimalString(count));
      ghost var vs0 := variables.variables;
      var r, p, fv2 := BlockStatement(s, c, sbc, sfbc, sub, mode, fv);
      if r != Ok {
        RefsBelowMono(fbc.functionRefs, |vs0|, |variables.variables|);
        return r, c, fv;
      }
      ghost var code0, jumps0 := bc.code, bc.jumps;
      InitVars(bc, sub);
      Absorb(bc, sbc);
      PrefixTransitive(old(bc.code), code0, bc.code);
      PrefixTransitive(old(bc.jumps), jumps0, bc.jumps);
      RefsBelowMono(fbc.functionRefs, |vs0|, |variables.variables|);
      AbsorbFunctions(fbc, sfbc, |variables.variables|);
      return Ok, p, fv2;
    }

    /**
     * The function alternative of a statement: a function definition
     * compiled into `sfbc`; on success `sbc`, which may hold code from the
     * failed attempts before, and then `sfbc` go to `fbc`.
     */
    method FunctionAlternative(s: string, c: CodeLocation, fbc: Bytecode, sbc: Bytecode, sfbc: Bytecode, scope: Scope)
      returns (ret: RetVal, c': CodeLocation)
      requires InText(s, c) && variables.Valid() && fbc.Valid() && sbc.Valid() && sfbc.Valid()
      requires fbc != sbc && fbc != sfbc && sbc != sfbc
      requires sbc.functionRefs == [] && RefsBelow(sfbc.functionRefs, |variables.variables|)
      requires RefsBelow(fbc.functionRefs, |variables.variables|)
      modifies variables, fbc, sbc, sfbc
      ensures InText(s, c') && (ret != Ok ==> c' == c) && (ret == Ok ==> c.pos < c'.pos)
      ensures variables.Valid() && TableGrows(old(variables.variables), variables.variables)
      ensures Extends(fbc, old(fbc.code), old(fbc.jumps)) && fbc.variables == old(fbc.variables)
      ensures old(fbc.functionRefs) <= fbc.functionRefs && RefsBelow(fbc.functionRefs, |variables.variables|)
      ensures ret == FailContinue <==> !FunctionKeywordAt(s, c)
      decreases |s| - c.pos, 3
    {
      ghost var vs0 := variables.variables;
      var r, p, _, _, _, _ := FunctionDefinition(s, c, sfbc, scope);
      RefsBelowMono(fbc.functionRefs, |vs0|, |variables.variables|);
      if r != Ok {
        return r, c;
      }
      ghost var code0, jumps0, refs0 := fbc.code, fbc.jumps, fbc.functionRefs;
      AbsorbFunctions(fbc, sbc, |variables.variables|);
      AbsorbFunctions(fbc, sfbc, |variables.variables|);
      PrefixTransitive(old(fbc.code), code0, fbc.code);
      PrefixTransitive(old(fbc.jumps), jumps0, fbc.jumps);
      PrefixTransitive(old(fbc.functionRefs), refs0, fbc.functionRefs);
      return Ok, p;
    }

    // -------------------------------------------------------------------
    // The whole program
    // -------------------------------------------------------------------

    /**
     * The two table entries of a builtin function: the function itself in
     * the root scope and its parameter `x` in the scope named after it.
     */
    method AddBuiltinPair(name: string) returns (f: int, p: int)
      requires variables.Valid()
      modifies variables
      ensures variables.Valid() && TableGrows(old(variables.variables), variables.variables)
      ensures 0 <= f < |variables.variables| && 0 <= p < |variables.variables|
      ensures var n := |old(variables.variables)|;
        FindSame(old(variables.variables), BuiltinEntry(name)).None? && FindSame(old(variables.variables), ParameterEntry(name)).None? ==>
          variables.variables == old(variables.variables) + [BuiltinEntry(name).(idx := n), ParameterEntry(name).(idx := n + 1)]
          && f == n && p == n + 1
    {
      ghost var vs0 := variables.variables;
      var _, f' := variables.Add(BuiltinEntry(name));
      ghost var vs1 := variables.variables;
      if FindSame(vs0, BuiltinEntry(name)).None? && FindSame(vs0, ParameterEntry(name)).None? {
        assert !SameVariable(BuiltinEntry(name).(idx := |vs0|), ParameterEntry(name));
      }
      var _, p' := variables.Add(ParameterEntry(name));
      TableGrowsTransitive(vs0, vs1, variables.variables);
      f, p := f', p';
    }

    /**
     * One builtin function of `parse`: its entry (a builtin function of the
     * root scope, of type "f" with one "f" parameter), its parameter `x`
     * in the scope named after it, and its code in `fbc`, registered as
     * its entry point.
     */
    method DeclareBuiltinFunction(fbc: Bytecode, name: string) returns (fun: u32, par: u32)
      requires variables.Valid() && fbc.Valid() && RefsBelow(fbc.functionRefs, |variables.variables|)
      modifies variables, fbc
      ensures variables.Valid() && TableGrows(old(variables.variables), variables.variables)
      ensures fbc.Valid() && fbc.variables == old(fbc.variables) && fbc.jumps == old(fbc.jumps)
      ensures fbc.code == old(fbc.code) + Listing(BuiltinCode(fun, par, name))
      ensures fbc.functionRefs == old(fbc.functionRefs) + [FunctionRef(fun, |old(fbc.code)|)]
      ensures RefsBelow(fbc.functionRefs, |variables.variables|)
      ensures var n := |old(variables.variables)|;
        FindSame(old(variables.variables), BuiltinEntry(name)).None? && FindSame(old(variables.variables), ParameterEntry(name)).None? ==>
          variables.variables == old(variables.variables) + [BuiltinEntry(name).(idx := n), ParameterEntry(name).(idx := n + 1)]
          && fun == ToU32(n) && par == ToU32(n + 1)
    {
      ghost var refs0 := fbc.functionRefs;
      var f, p := AddBuiltinPair(name);
      RefsBelowMono(refs0, |old(variables.variables)|, |variables.variables|);
      fun, par := ToU32(f), ToU32(p);
      assert fun as int < |variables.variables|;
      EmitBuiltinFunction(fbc, fun, par, name);
      assert fbc.functionRefs == refs0 + [FunctionRef(fun, |old(fbc.code)|)];
    }

    /** The constants `true` and `false`; on an empty table they become its first two entries. */
    method DeclareConstants() returns (truePos: u32, falsePos: u32)
      requires variables.Valid()
      modifies variables
      ensures variables.Valid() && TableGrows(old(variables.variables), variables.variables)
      ensures old(variables.variables) == [] ==>
        variables.variables == BuiltinTable()[..2] && truePos == 0 && falsePos == 1
    {
      ghost var vs0 := variables.variables;
      var _, t := variables.Add(ConstantEntry("true"));
      ghost var vs1 := variables.variables;
      var _, f := variables.Add(ConstantEntry("false"));
      TableGrowsTransitive(vs0, vs1, variables.variables);
      truePos, falsePos := ToU32(t), ToU32(f);
    }

    /**
     * The declarations `parse` makes before the text: the constants true
     * and false, then sin and cos.  On an empty table they become its
     * first six entries.
     */
    method DeclareBuiltins(fbc: Bytecode)
      returns (truePos: u32, falsePos: u32, ghost sinFun: u32, ghost sinPar: u32, ghost cosFun: u32, ghost cosPar: u32)
      requires variables.Valid() && fbc.Valid() && RefsBelow(fbc.functionRefs, |variables.variables|)
      modifies variables, fbc
      ensures variables.Valid() && TableGrows(old(variables.variables), variables.variables)
      ensures fbc.Valid() && fbc.variables == old(fbc.variables) && fbc.jumps == old(fbc.jumps)
      ensures RefsBelow(fbc.functionRefs, |variables.variables|)
      ensures var sinCode := Listing(BuiltinCode(sinFun, sinPar, "sin"));
        fbc.code == old(fbc.code) + sinCode + Listing(BuiltinCode(cosFun, cosPar, "cos"))
        && fbc.functionRefs == old(fbc.functionRefs) + [FunctionRef(sinFun, |old(fbc.code)|),
                                                        FunctionRef(cosFun, |old(fbc.code) + sinCode|)]
      ensures old(variables.variables) == [] ==>
        variables.variables == BuiltinTable() && truePos == 0 && falsePos == 1
        && sinFun == 2 && sinPar == 3 && cosFun == 4 && cosPar == 5
    {
      ghost var vs0, code0, refs0 := variables.variables, fbc.code, fbc.functionRefs;
      truePos, falsePos := DeclareConstants();
      ghost var vs2 := variables.variables;
      RefsBelowMono(refs0, |vs0|, |vs2|);
      BuiltinPrefixFresh(vs2);
      var sf, sp := DeclareBuiltinFunction(fbc, "sin");
      ghost var vs3, code3, refs3 := variables.variables, fbc.code, fbc.functionRefs;
      ghost var sinCode := Listing(BuiltinCode(sf, sp, "sin"));
      ghost var r1 := FunctionRef(sf, |code0|);
      assert code3 == code0 + sinCode && refs3 == refs0 + [r1];
      if vs0 == [] {
        assert vs3 == BuiltinTable()[..4];
      }
      BuiltinPrefixFresh(vs3);
      var cf, cp := DeclareBuiltinFunction(fbc, "cos");
      ghost var r2 := FunctionRef(cf, |code3|);
      assert fbc.functionRefs == refs3 + [r2];
      assert fbc.functionRefs == refs0 + [r1, r2];
      sinFun, sinPar, cosFun, cosPar := sf, sp, cf, cp;
      TableGrowsTransitive(vs0, vs2, vs3);
      TableGrowsTransitive(vs0, vs3, variables.variables);
      if vs0 == [] {
        assert variables.variables == BuiltinTable();
      }
    }

    /** `parse`'s last loop: the DATA section of the whole table, entry by entry. */
    method EmitDataSection(bc: Bytecode)
      modifies bc
      ensures bc.variables == old(bc.variables) + DataSection(variables.variables)
      ensures bc.code == old(bc.code) && bc.jumps == old(bc.jumps) && bc.functionRefs == old(bc.functionRefs)
      ensures old(bc.Valid()) ==> bc.Valid()
    {
      var vs := variables.variables;
      var i := 0;
      while i < |vs|
        invariant 0 <= i <= |vs|
        invariant bc.variables == old(bc.variables) + DataSection(vs[..i])
        invariant bc.code == old(bc.code) && bc.jumps == old(bc.jumps) && bc.functionRefs == old(bc.functionRefs)
      {
        var v := vs[i];
        assert vs[..i + 1][..i] == vs[..i];
        var scope := ToString(v.scope);
        match v.entityType {
          case BuiltinVariable =>
            var _ := bc.Data(v.name, scope, v.typeString);
          case Variable =>
            var _ := bc.Data(v.name, scope, v.typeString);
          case DynamicVariable =>
            var _ := bc.DData(v.name, scope, ToU32(v.idx), v.typeString);
          case BuiltinFunction =>
            var _ := bc.Fun(v.name, scope, v.typeString, v.funParams, v.functionRef);
          case Function =>
            var _ := bc.Fun(v.name, scope, v.typeString, v.funParams, v.functionRef);
          case Undefined =>
        }
        i := i + 1;
      }
      assert vs[..i] == vs;
    }

    /** The start of the program: the INITVARs of the root scope, then the prelude. */
    method EmitStart(bc: Bytecode, truePos: u32, falsePos: u32)
      modifies bc
      ensures bc.code == old(bc.code) + Listing(InitInstrs(variables.variables, ROOT) + Prelude(truePos, falsePos))
      ensures bc.variables == old(bc.variables) && bc.jumps == old(bc.jumps) && bc.functionRefs == old(bc.functionRefs)
      ensures old(bc.Valid()) ==> bc.Valid()
    {
      ghost var c0 := bc.code;
      ghost var inits, prelude := InitInstrs(variables.variables, ROOT), Prelude(truePos, falsePos);
      InitVars(bc, ROOT);
      EmitPrelude(bc, truePos, falsePos);
      ListingAppend(inits, prelude);
      SeqAssoc(c0, Listing(inits), Listing(prelude));
    }

    /**
     * The function entries of the table receive the offsets of `bc`'s
     * fix-ups, then the DATA section of the table follows in `bc`.
     */
    method Describe(bc: Bytecode)
      requires variables.Valid() && RefsBelow(bc.functionRefs, |variables.variables|)
      modifies variables, bc
      ensures bc.code == old(bc.code) && bc.jumps == old(bc.jumps) && bc.functionRefs == old(bc.functionRefs)
      ensures variables.Valid() && variables.variables == WithFunctionRefs(old(variables.variables), bc.functionRefs)
      ensures bc.variables == old(bc.variables) + DataSection(variables.variables)
      ensures old(bc.Valid()) ==> bc.Valid()
    {
      variables.UpdateFunctionRefs(bc.functionRefs);
      EmitDataSection(bc);
    }

    /**
     * The code part of the end of `parse`: the INITVARs of the root scope
     * and the prelude, then the code of the text and that of the
     * functions, each relocated to its place.
     */
    method LinkUnits(bc: Bytecode, tbc: Bytecode, fbc: Bytecode, truePos: u32, falsePos: u32, ghost table: seq<VariableInfo>)
      returns (ghost head: seq<byte>, ghost body: seq<byte>, ghost text: CodeUnit, ghost funs: CodeUnit)
      requires table == variables.variables
      requires bc != tbc && bc != fbc && tbc != fbc
      requires bc.Valid() && bc.code == [] && bc.variables == [] && bc.jumps == [] && bc.functionRefs == []
      requires tbc.Valid() && fbc.Valid()
      requires RefsBelow(tbc.functionRefs, |variables.variables|) && RefsBelow(fbc.functionRefs, |variables.variables|)
      modifies bc, tbc, fbc
      ensures bc.Valid() && bc.variables == [] && RefsBelow(bc.functionRefs, |variables.variables|)
      ensures text == CodeUnit(old(tbc.code), old(tbc.jumps)) && funs == CodeUnit(old(fbc.code), old(fbc.jumps))
      ensures head == Listing(InitInstrs(table, ROOT) + Prelude(truePos, falsePos)) && Linked(bc.code, head, body, text, funs)
    {
      EmitStart(bc, truePos, falsePos);
      head := bc.code;
      body, text, funs := AppendUnits(bc, tbc, fbc, |variables.variables|);
    }

    /**
     * The end of `parse` after a successful translation: the code as
     * `LinkUnits` lays it out; the function entries of the table receive
     * their offsets and the DATA section describes the whole table.
     */
    method Link(bc: Bytecode, tbc: Bytecode, fbc: Bytecode, truePos: u32, falsePos: u32)
      returns (ghost head: seq<byte>, ghost body: seq<byte>, ghost text: CodeUnit, ghost funs: CodeUnit)
      requires bc != tbc && bc != fbc && tbc != fbc
      requires bc.Valid() && bc.code == [] && bc.variables == [] && bc.jumps == [] && bc.functionRefs == []
      requires tbc.Valid() && fbc.Valid() && variables.Valid()
      requires RefsBelow(tbc.functionRefs, |variables.variables|) && RefsBelow(fbc.functionRefs, |variables.variables|)
      modifies variables, bc, tbc, fbc
      ensures variables.Valid()
      ensures bc.Valid() && RefsBelow(bc.functionRefs, |old(variables.variables)|)
      ensures text == CodeUnit(old(tbc.code), old(tbc.jumps)) && funs == CodeUnit(old(fbc.code), old(fbc.jumps))
      ensures head == Listing(InitInstrs(old(variables.variables), ROOT) + Prelude(truePos, falsePos)) && Linked(bc.code, head, body, text, funs)
      ensures variables.variables == WithFunctionRefs(old(variables.variables), bc.functionRefs)
      ensures bc.variables == DataSection(variables.variables)
    {
      ghost var table := variables.variables;
      head, body, text, funs := LinkUnits(bc, tbc, fbc, truePos, falsePos, table);
      Describe(bc);
      assert bc.variables == [] + DataSection(variables.variables);
    }

    /**
     * The translation proper of `parse`: the builtins, whose code goes to
     * `fbc`, then the text as a translation unit of the root scope with
     * static variables, its code in `tbc` and that of its functions in `fbc`.
     */
    method Translate(s: string, tbc: Bytecode, fbc: Bytecode) returns (r: RetVal, truePos: u32, falsePos: u32)
      requires tbc != fbc && variables.Valid() && tbc.Valid() && fbc.Valid()
      requires tbc.functionRefs == [] && fbc.functionRefs == []
      modifies variables, tbc, fbc
      ensures variables.Valid() && TableGrows(old(variables.variables), variables.variables)
      ensures tbc.Valid() && fbc.Valid()
      ensures RefsBelow(tbc.functionRefs, |variables.variables|) && RefsBelow(fbc.functionRefs, |variables.variables|)
      ensures old(variables.variables) == [] ==>
        6 <= |variables.variables| && variables.variables[..6] == BuiltinTable() && truePos == 0 && falsePos == 1
    {
      ghost var sinFun: u32, sinPar: u32, cosFun: u32, cosPar: u32;
      truePos, falsePos, sinFun, sinPar, cosFun, cosPar := DeclareBuiltins(fbc);
      ghost var vs1 := variables.variables;
      var r0, _, _ := TranslationUnit(s, CodeLocation(0, 0, 0), tbc, fbc, ROOT, Static, []);
      r := r0;
      TableGrowsTransitive(old(variables.variables), vs1, variables.variables);
      if old(variables.variables) == [] {
        assert variables.variables[..6] == vs1;
      }
    }

    /**
     * `parse`: the builtins, then the text as a translation unit of the
     * root scope with static variables.  On success the program is the
     * INITVARs of the root scope, the initialisation of true and false, the
     * code of the text and the code of the functions; the function
     * entries of the table receive their offsets, and the DATA section
     * describes the whole table.  The table is not cleared first.
     */
    method Parse(s: string, bc: Bytecode)
      returns (status: ParseStatus, ghost table: seq<VariableInfo>, truePos: u32, falsePos: u32,
               ghost head: seq<byte>, ghost body: seq<byte>, ghost text: CodeUnit, ghost funs: CodeUnit)
      requires variables.Valid()
      modifies variables, bc
      ensures variables.Valid() && TableGrows(old(variables.variables), table)
      ensures status == ParseError ==> bc.code == [] && bc.variables == [] && bc.jumps == [] && bc.functionRefs == []
      ensures status == ParseOk ==> (bc.Valid()
        && RefsBelow(bc.functionRefs, |table|)
        && head == Listing(InitInstrs(table, ROOT) + Prelude(truePos, falsePos)) && Linked(bc.code, head, body, text, funs)
        && variables.variables == WithFunctionRefs(table, bc.functionRefs)
        && bc.variables == DataSection(variables.variables))
      ensures status == ParseOk && old(variables.variables) == [] ==>
        6 <= |table| && table[..6] == BuiltinTable() && truePos == 0 && falsePos == 1
    {
      var fbc := new Bytecode();
      var tbc := new Bytecode();
      bc.Clear();
      var r;
      r, truePos, falsePos := Translate(s, tbc, fbc);
      table := variables.variables;
      head, body := [], [];
      text, funs := CodeUnit(tbc.code, tbc.jumps), CodeUnit(fbc.code, fbc.jumps);
      if r != Ok {
        status := ParseError;
        return;
      }
      head, body, text, funs := Link(bc, tbc, fbc, truePos, falsePos);
      status := ParseOk;
    }
  }
}
