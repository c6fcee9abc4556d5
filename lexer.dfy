/**
 * The lexical helpers of the compiler (parser.cpp:151-430, 1601-1697):
 * each reads the source text at a cursor, moves the cursor past what it
 * recognises, and on failure puts the cursor back where it was.  A rule
 * answers OK, FAIL_CONTINUE (nothing of its kind here, try another rule)
 * or FAIL_STOP (its construct has begun but is malformed).
 */
module Lexer {
  import opened Encoding
  import opened Text
  import opened Symbols
  import opened Arrays
  import opened TypeRules

  datatype RetVal = Ok | FailContinue | FailStop

  /** The characters that may follow a word (parser.cpp:64-65). */
  const TERMINAL_SYMBOLS: string := ",+-*/()[]{}.<>!=?: \t\n"

  const RESERVED_WORDS: seq<string> := ["and", "or", "not", "int", "float", "string", "boolean", "array", "of", "function"]

  /** A cursor the rules may read from: an offset into the text or its end. */
  predicate InText(s: string, c: CodeLocation)
  {
    0 <= c.pos <= |s|
  }

  // ---------------------------------------------------------------------
  // Single characters
  // ---------------------------------------------------------------------

  /** `check_symbol`. */
  predicate CheckSymbol(s: string, c: CodeLocation, symbol: char)
  {
    0 <= c.pos < |s| && s[c.pos] == symbol
  }

  predicate IsLetter(ch: char)
  {
    'A' <= ch <= 'Z' || 'a' <= ch <= 'z'
  }

  predicate IsDigit(ch: char)
  {
    '0' <= ch <= '9'
  }

  /** `identifier_first_char`. */
  predicate IdentifierFirstChar(s: string, c: CodeLocation)
  {
    0 <= c.pos < |s| && (IsLetter(s[c.pos]) || s[c.pos] == '_')
  }

  /** `identifier_char`. */
  predicate IdentifierChar(s: string, c: CodeLocation)
  {
    0 <= c.pos < |s| && (IsLetter(s[c.pos]) || IsDigit(s[c.pos]) || s[c.pos] == '_')
  }

  /** `digit`. */
  predicate Digit(s: string, c: CodeLocation)
  {
    0 <= c.pos < |s| && IsDigit(s[c.pos])
  }

  /** The end of the text, or a character that ends a word. */
  predicate TerminalAt(s: string, p: nat)
  {
    p >= |s| || s[p] in TERMINAL_SYMBOLS
  }

  /** `isTerminal`: the scan of the terminal symbols. */
  method IsTerminal(s: string, c: CodeLocation) returns (r: bool)
    requires InText(s, c)
    ensures r == TerminalAt(s, c.pos)
  {
    if |s| <= c.pos {
      return true;
    }
    var i := 0;
    while i < |TERMINAL_SYMBOLS|
      invariant 0 <= i <= |TERMINAL_SYMBOLS|
      invariant forall k :: 0 <= k < i ==> s[c.pos] != TERMINAL_SYMBOLS[k]
    {
      if s[c.pos] == TERMINAL_SYMBOLS[i] {
        return true;
      }
      i := i + 1;
    }
    return false;
  }

  /**
   * `check_string`: the text at the cursor spells `w`, ignoring case; on a
   * match the cursor moves past it along the line, otherwise it stays.
   */
  method CheckString(s: string, c: CodeLocation, w: string) returns (ok: bool, c': CodeLocation)
    requires InText(s, c)
    ensures ok == MatchesAt(s, c.pos, w)
    ensures c' == if ok then Plus(c, |w|) else c
    ensures InText(s, c')
  {
    if |s| < c.pos + |w| {
      return false, c;
    }
    var i := 0;
    while i < |w|
      invariant 0 <= i <= |w|
      invariant forall k :: 0 <= k < i ==> Upper(s[c.pos + k]) == Upper(w[k])
    {
      if Upper(s[c.pos + i]) != Upper(w[i]) {
        return false, c;
      }
      i := i + 1;
    }
    return true, Plus(c, |w|);
  }

  /** `isReserved`: the loop over the reserved words, compared ignoring case. */
  method IsReserved(id: string) returns (r: bool)
    ensures r <==> exists k :: 0 <= k < |RESERVED_WORDS| && EqualsIgnoreCase(id, RESERVED_WORDS[k])
  {
    var i := 0;
    while i < |RESERVED_WORDS|
      invariant 0 <= i <= |RESERVED_WORDS|
      invariant forall k :: 0 <= k < i ==> !EqualsIgnoreCase(id, RESERVED_WORDS[k])
    {
      if |id| == |RESERVED_WORDS[i]| {
        var ok, _ := CheckString(id, CodeLocation(0, 0, 0), RESERVED_WORDS[i]);
        if ok {
          return true;
        }
      }
      i := i + 1;
    }
    return false;
  }

  // ---------------------------------------------------------------------
  // whitespace (parser.cpp:200-215)
  // ---------------------------------------------------------------------

  predicate IsSpace(ch: char)
  {
    ch == ' ' || ch == '\t' || ch == '\n'
  }

  /** One consumed white-space character: a newline starts the next row at column 0. */
  function StepOver(c: CodeLocation, ch: char): CodeLocation
  {
    if ch == '\n' then CodeLocation(c.pos + 1, c.row + 1, 0) else Plus(c, 1)
  }

  /** The cursor after the white space at `c`, one character at a time. */
  function SkipWhitespace(s: string, c: CodeLocation): (r: CodeLocation)
    requires InText(s, c)
    ensures InText(s, r) && c.pos <= r.pos
    decreases |s| - c.pos
  {
    if c.pos < |s| && IsSpace(s[c.pos]) then SkipWhitespace(s, StepOver(c, s[c.pos])) else c
  }

  /** `whitespace`. */
  method Whitespace(s: string, c: CodeLocation) returns (r: CodeLocation)
    requires InText(s, c)
    ensures r == SkipWhitespace(s, c)
  {
    r := c;
    while r.pos < |s| && IsSpace(s[r.pos])
      invariant InText(s, r)
      invariant SkipWhitespace(s, r) == SkipWhitespace(s, c)
      decreases |s| - r.pos
    {
      if s[r.pos] == '\n' {
        r := CodeLocation(r.pos + 1, r.row + 1, 0);
      } else {
        r := Plus(r, 1);
      }
    }
  }

  function Count(t: string, ch: char): nat
  {
    if |t| == 0 then 0 else (if t[0] == ch then 1 else 0) + Count(t[1..], ch)
  }

  /** The index of the last newline of `t`, -1 if there is none. */
  function LastNewline(t: string): (r: int)
    ensures -1 <= r < |t|
    ensures r >= 0 ==> t[r] == '\n'
  {
    if |t| == 0 then -1
    else
      var rest := LastNewline(t[1..]);
      if rest >= 0 then rest + 1 else if t[0] == '\n' then 0 else -1
  }

  /**
   * `whitespace` consumes exactly the spaces, tabs and newlines at the
   * cursor; the row goes up by the newlines consumed, and the column is
   * the old column plus the characters consumed when there is no newline
   * among them, and otherwise the number of characters after the last one.
   */
  lemma {:induction false} WhitespaceEffect(s: string, c: CodeLocation)
    requires InText(s, c)
    ensures var r := SkipWhitespace(s, c); var t := s[c.pos..r.pos];
      (forall k :: c.pos <= k < r.pos ==> IsSpace(s[k]))
      && (r.pos < |s| ==> !IsSpace(s[r.pos]))
      && r.row == c.row + Count(t, '\n')
      && (Count(t, '\n') == 0 <==> LastNewline(t) == -1)
      && r.col == (if LastNewline(t) == -1 then c.col + |t| else |t| - 1 - LastNewline(t))
    decreases |s| - c.pos
  {
    if c.pos < |s| && IsSpace(s[c.pos]) {
      var c1 := StepOver(c, s[c.pos]);
      WhitespaceEffect(s, c1);
      var r := SkipWhitespace(s, c);
      var t := s[c.pos..r.pos];
      assert t[1..] == s[c1.pos..r.pos];
      assert t[0] == s[c.pos];
    } else {
      assert s[c.pos..c.pos] == [];
    }
  }

  // ---------------------------------------------------------------------
  // Words and numbers
  // ---------------------------------------------------------------------

  /** The end of the run of identifier characters from `p`. */
  function IdentEnd(s: string, p: nat): (r: nat)
    requires p <= |s|
    ensures p <= r <= |s|
    decreases |s| - p
  {
    if p < |s| && (IsLetter(s[p]) || IsDigit(s[p]) || s[p] == '_') then IdentEnd(s, p + 1) else p
  }

  /** The end of the run of digits from `p`. */
  function DigitsEnd(s: string, p: nat): (r: nat)
    requires p <= |s|
    ensures p <= r <= |s|
    ensures forall k :: p <= k < r ==> IsDigit(s[k])
    ensures r < |s| ==> !IsDigit(s[r])
    decreases |s| - p
  {
    if p < |s| && IsDigit(s[p]) then DigitsEnd(s, p + 1) else p
  }

  /**
   * The word the identifier rule reads at `c` after white space: a letter
   * or '_', then letters, digits and '_', ending at a terminal.
   */
  function WordAt(s: string, c: CodeLocation): (r: Option<(string, CodeLocation)>)
    requires InText(s, c)
    ensures r.Some? ==> var w := SkipWhitespace(s, c);
      InText(s, r.value.1) && r.value.1 == Plus(w, |r.value.0|) && |r.value.0| > 0
      && r.value.0 == s[w.pos..r.value.1.pos] && TerminalAt(s, r.value.1.pos)
  {
    var w := SkipWhitespace(s, c);
    if IdentifierFirstChar(s, w) then
      var e := IdentEnd(s, w.pos + 1);
      if TerminalAt(s, e) then Some((s[w.pos..e], Plus(w, e - w.pos))) else None
    else None
  }

  /**
   * The scanning part of `identifier`: the word at the cursor, unless it
   * is missing, runs into a non-terminal, or is a reserved word.
   */
  method ScanIdentifier(s: string, c: CodeLocation) returns (ret: RetVal, name: string, c': CodeLocation)
    requires InText(s, c)
    ensures ret != FailStop && InText(s, c')
    ensures ret == Ok <==> WordAt(s, c).Some? && !IsReservedWord(WordAt(s, c).value.0)
    ensures ret == Ok ==> (name, c') == WordAt(s, c).value
    ensures ret != Ok ==> c' == c
  {
    var w := Whitespace(s, c);
    if IdentifierFirstChar(s, w) {
      var p := Plus(w, 1);
      while IdentifierChar(s, p)
        invariant InText(s, p) && w.pos < p.pos && p == Plus(w, p.pos - w.pos)
        invariant IdentEnd(s, p.pos) == IdentEnd(s, w.pos + 1)
        decreases |s| - p.pos
      {
        p := Plus(p, 1);
      }
      var t := IsTerminal(s, p);
      if t {
        var id := s[w.pos..p.pos];
        var reserved := IsReserved(id);
        if !reserved {
          return Ok, id, p;
        }
      }
    }
    return FailContinue, "", c;
  }

  predicate IsReservedWord(id: string)
  {
    exists k :: 0 <= k < |RESERVED_WORDS| && EqualsIgnoreCase(id, RESERVED_WORDS[k])
  }

  /** A declared name never spells a reserved word, in any case. */
  lemma ScannedNameIsNotReserved(s: string, c: CodeLocation)
    requires InText(s, c) && WordAt(s, c).Some?
    requires !IsReservedWord(WordAt(s, c).value.0)
    ensures forall k :: 0 <= k < |RESERVED_WORDS| ==> !EqualsIgnoreCase(WordAt(s, c).value.0, RESERVED_WORDS[k])
  {
  }

  /** The cursor after an unsigned integer at `c`: white space, digits, a terminal. */
  function IntegerEnd(s: string, c: CodeLocation): (r: Option<CodeLocation>)
    requires InText(s, c)
    ensures r.Some? ==> InText(s, r.value) && c.pos < r.value.pos && TerminalAt(s, r.value.pos)
  {
    IntegerAt(s, SkipWhitespace(s, c))
  }

  /** The end of the digits at `w`, when they end at a terminal. */
  function IntegerAt(s: string, w: CodeLocation): (r: Option<CodeLocation>)
    requires InText(s, w)
    ensures r.Some? ==> InText(s, r.value) && w.pos < r.value.pos && TerminalAt(s, r.value.pos)
  {
    if Digit(s, w) && TerminalAt(s, DigitsEnd(s, w.pos)) then Some(Plus(w, DigitsEnd(s, w.pos) - w.pos)) else None
  }

  /** What `IntegerEnd` reads is white space followed by one digit or more. */
  lemma IntegerText(s: string, c: CodeLocation)
    requires InText(s, c) && IntegerEnd(s, c).Some?
    ensures var w := SkipWhitespace(s, c); var e := IntegerEnd(s, c).value;
      w.pos < e.pos && (forall k :: w.pos <= k < e.pos ==> IsDigit(s[k]))
      && (forall k :: c.pos <= k < w.pos ==> IsSpace(s[k]))
  {
    WhitespaceEffect(s, c);
  }

  /**
   * `unsigned_integer`.  The text returned starts at the cursor the rule
   * was given, white space included.
   */
  method UnsignedInteger(s: string, c: CodeLocation) returns (ret: RetVal, value: string, c': CodeLocation)
    requires InText(s, c)
    ensures ret != FailStop && InText(s, c')
    ensures ret == Ok <==> IntegerEnd(s, c).Some?
    ensures ret == Ok ==> c' == IntegerEnd(s, c).value && value == s[c.pos..c'.pos]
    ensures ret != Ok ==> c' == c
  {
    var w := Whitespace(s, c);
    if Digit(s, w) {
      var p := Plus(w, 1);
      while Digit(s, p)
        invariant InText(s, p) && w.pos < p.pos && p == Plus(w, p.pos - w.pos)
        invariant DigitsEnd(s, p.pos) == DigitsEnd(s, w.pos)
        decreases |s| - p.pos
      {
        p := Plus(p, 1);
      }
      var t := IsTerminal(s, p);
      if t {
        return Ok, s[c.pos..p.pos], p;
      }
    }
    return FailContinue, "", c;
  }

  /** An integer followed by '.' at the cursor: `unsigned_float` has begun. */
  predicate FloatStarted(s: string, c: CodeLocation)
    requires InText(s, c)
  {
    IntegerEnd(s, c).Some? && CheckSymbol(s, IntegerEnd(s, c).value, '.')
  }

  /** The cursor after an unsigned float at `c`: an integer, '.', an integer. */
  function FloatEnd(s: string, c: CodeLocation): (r: Option<CodeLocation>)
    requires InText(s, c)
    ensures r.Some? ==> InText(s, r.value) && c.pos < r.value.pos && TerminalAt(s, r.value.pos)
  {
    if FloatStarted(s, c) then IntegerEnd(s, Plus(IntegerEnd(s, c).value, 1)) else None
  }

  /**
   * A float starts with an integer that ends, at its '.', before the float
   * does: that is why the literal rule tries a float before an integer.
   */
  lemma FloatExtendsInteger(s: string, c: CodeLocation)
    requires InText(s, c) && FloatEnd(s, c).Some?
    ensures IntegerEnd(s, c).Some? && IntegerEnd(s, c).value.pos < FloatEnd(s, c).value.pos
    ensures s[IntegerEnd(s, c).value.pos] == '.'
  {
  }

  /**
   * `unsigned_float`.  Once an integer and the '.' are read, failure is
   * FAIL_STOP.
   */
  method UnsignedFloat(s: string, c: CodeLocation) returns (ret: RetVal, value: string, c': CodeLocation)
    requires InText(s, c)
    ensures InText(s, c')
    ensures ret == Ok <==> FloatEnd(s, c).Some?
    ensures ret == Ok ==> c' == FloatEnd(s, c).value && value == s[c.pos..c'.pos]
    ensures ret == FailStop <==> FloatStarted(s, c) && FloatEnd(s, c).None?
    ensures ret != Ok ==> c' == c
  {
    var w := Whitespace(s, c);
    WhitespaceIdempotent(s, c);
    IntegerAfterWhitespace(s, c);
    var r1, v1, p1 := UnsignedInteger(s, w);
    if r1 == Ok {
      if CheckSymbol(s, p1, '.') {
        var p2 := Plus(p1, 1);
        var r2, v2, p3 := UnsignedInteger(s, p2);
        if r2 == Ok {
          var t := IsTerminal(s, p3);
          if t {
            return Ok, s[c.pos..p3.pos], p3;
          }
        }
        return FailStop, "", c;
      }
    }
    return FailContinue, "", c;
  }

  lemma IntegerAfterWhitespace(s: string, c: CodeLocation)
    requires InText(s, c)
    ensures IntegerEnd(s, SkipWhitespace(s, c)) == IntegerEnd(s, c)
  {
    WhitespaceIdempotent(s, c);
  }

  /** Skipping white space twice is skipping it once. */
  lemma {:induction false} WhitespaceIdempotent(s: string, c: CodeLocation)
    requires InText(s, c)
    ensures SkipWhitespace(s, SkipWhitespace(s, c)) == SkipWhitespace(s, c)
    decreases |s| - c.pos
  {
    if c.pos < |s| && IsSpace(s[c.pos]) {
      WhitespaceIdempotent(s, StepOver(c, s[c.pos]));
    }
  }

  /**
   * `boolean_value`: "true" or "false", in any case, ending at a terminal.
   * A "true" that runs into more text is not retried as "false".
   */
  method BooleanValue(s: string, c: CodeLocation) returns (ret: RetVal, value: bool, c': CodeLocation)
    requires InText(s, c)
    ensures ret != FailStop && InText(s, c')
    ensures var w := SkipWhitespace(s, c);
      ret == Ok <==> (MatchesAt(s, w.pos, "true") && TerminalAt(s, w.pos + 4))
                     || (!MatchesAt(s, w.pos, "true") && MatchesAt(s, w.pos, "false") && TerminalAt(s, w.pos + 5))
    ensures ret == Ok ==> var w := SkipWhitespace(s, c);
      value == MatchesAt(s, w.pos, "true") && c' == Plus(w, if value then 4 else 5)
    ensures ret != Ok ==> c' == c
  {
    var w := Whitespace(s, c);
    var ok, p := CheckString(s, w, "true");
    if ok {
      var t := IsTerminal(s, p);
      if t {
        return Ok, true, p;
      }
    } else {
      ok, p := CheckString(s, w, "false");
      if ok {
        var t := IsTerminal(s, p);
        if t {
          return Ok, false, p;
        }
      }
    }
    return FailContinue, false, c;
  }

  // ---------------------------------------------------------------------
  // String literals (parser.cpp:282-333)
  // ---------------------------------------------------------------------

  /**
   * Where the body of a string literal starting at `p` ends: at the next
   * '"' that is not escaped, or at the end of the text.  A backslash
   * followed by '"' or by a backslash is read as one unit.
   */
  function StringBodyEnd(s: string, p: nat): (r: nat)
    requires p <= |s|
    ensures p <= r <= |s|
    ensures r < |s| ==> s[r] == '"'
    decreases |s| - p
  {
    if p < |s| && s[p] == '"' then p
    else if p + 1 < |s| && s[p] == '\\' && (s[p + 1] == '"' || s[p + 1] == '\\') then StringBodyEnd(s, p + 2)
    else if p < |s| then StringBodyEnd(s, p + 1)
    else p
  }

  /** An escaped quote does not end the literal. */
  lemma EscapedQuoteDoesNotEnd(s: string, p: nat)
    requires p + 1 < |s| && s[p] == '\\' && s[p + 1] == '"'
    ensures StringBodyEnd(s, p) == StringBodyEnd(s, p + 2) && StringBodyEnd(s, p) > p + 1
  {
  }

  /**
   * `string_expression`: a '"', the body, a closing '"' and a terminal.
   * Once the opening quote is read, failure is FAIL_STOP.  The value is
   * the text between the quotes as written, escapes included, counted
   * from the cursor the rule was given.
   */
  method StringExpression(s: string, c: CodeLocation) returns (ret: RetVal, value: string, c': CodeLocation)
    requires InText(s, c)
    ensures InText(s, c')
    ensures var w := SkipWhitespace(s, c);
      ret != FailContinue <==> CheckSymbol(s, w, '"')
    ensures var w := SkipWhitespace(s, c);
      ret == Ok <==> CheckSymbol(s, w, '"') && StringBodyEnd(s, w.pos + 1) < |s| && TerminalAt(s, StringBodyEnd(s, w.pos + 1) + 1)
    ensures ret == Ok ==> var w := SkipWhitespace(s, c); var e := StringBodyEnd(s, w.pos + 1);
      c' == Plus(w, e + 1 - w.pos) && c.pos + 1 <= e && value == s[c.pos + 1..e]
    ensures ret != Ok ==> c' == c
  {
    var w := Whitespace(s, c);
    if CheckSymbol(s, w, '"') {
      var p := Plus(w, 1);
      while StringChar(s, p)
        invariant InText(s, p) && w.pos < p.pos && p == Plus(w, p.pos - w.pos)
        invariant StringBodyEnd(s, p.pos) == StringBodyEnd(s, w.pos + 1)
        decreases |s| - p.pos
      {
        p := StepStringChar(s, p);
      }
      if CheckSymbol(s, p, '"') {
        p := Plus(p, 1);
        var t := IsTerminal(s, p);
        if t {
          return Ok, s[c.pos + 1..p.pos - 1], p;
        }
      }
      return FailStop, "", c;
    }
    return FailContinue, "", c;
  }

  /** `string_char`: there is a character of the body at the cursor. */
  predicate StringChar(s: string, c: CodeLocation)
  {
    0 <= c.pos < |s| && s[c.pos] != '"'
  }

  /** The cursor after one unit of the body: an escape pair, or one character. */
  function StepStringChar(s: string, c: CodeLocation): (r: CodeLocation)
    requires StringChar(s, c)
    ensures InText(s, r) && c.pos < r.pos
    ensures StringBodyEnd(s, r.pos) == StringBodyEnd(s, c.pos)
  {
    if c.pos + 1 < |s| && s[c.pos] == '\\' && (s[c.pos + 1] == '"' || s[c.pos + 1] == '\\') then Plus(c, 2) else Plus(c, 1)
  }

  // ---------------------------------------------------------------------
  // Type declarations (parser.cpp:1577-1692)
  // ---------------------------------------------------------------------

  /** The type keywords and their type letters, in the order they are tried. */
  const TYPE_WORDS: seq<(string, char)> := [("int", 'i'), ("float", 'f'), ("string", 's'), ("boolean", 'b'), ("array", 'a')]

  /** The index type keywords: all but `array`. */
  const INDEX_TYPE_WORDS: seq<(string, char)> := TYPE_WORDS[..4]

  /** A declared type: a simple type, or an array with its index types and element type. */
  datatype TypeDecl = Simple(letter: char) | ArrayOf(indexTypes: seq<char>, element: TypeDecl)

  predicate ValidDecl(d: TypeDecl)
  {
    match d
    case Simple(letter) => letter in "ifsb"
    case ArrayOf(ts, e) => |ts| > 0 && SimpleTypes(ts) && ValidDecl(e)
  }

  /** The type string of a declaration, as `type_declaration` builds it. */
  function TypeString(d: TypeDecl): string
  {
    match d
    case Simple(letter) => [letter]
    case ArrayOf(ts, e) => "a [" + JoinTypes(ts) + "] " + TypeString(e)
  }

  /** An array's type string splits back into its index types and element type string. */
  lemma ArrayTypeStringParts(ts: seq<char>, e: TypeDecl)
    requires SimpleTypes(ts)
    ensures ArrayTypeParts(TypeString(ArrayOf(ts, e))) == (ts, TypeString(e))
  {
    var a := ArrayValue(ts, TypeString(e), []);
    ArrayTypePartsRoundTrip(a);
    assert DatatypeString(a) == TypeString(ArrayOf(ts, e));
  }

  /** Indexing an array with arguments of its index types gives its element type. */
  lemma ArrayTypeStringIndexed(ts: seq<char>, e: TypeDecl)
    ensures ProcessArrayDatatype(TypeString(ArrayOf(ts, e)), JoinTypes(ts)) == (true, TypeString(e))
  {
    ProcessArrayDatatypeOfDeclared(JoinTypes(ts), TypeString(e));
  }

  /** Different declarations have different type strings. */
  lemma {:induction false} TypeStringInjective(d1: TypeDecl, d2: TypeDecl)
    requires ValidDecl(d1) && ValidDecl(d2)
    requires TypeString(d1) == TypeString(d2)
    ensures d1 == d2
  {
    match d1
    case Simple(_) =>
    case ArrayOf(ts1, e1) =>
      assert TypeString(d1)[0] == 'a';
      var ts2, e2 := d2.indexTypes, d2.element;
      ArrayTypeStringParts(ts1, e1);
      ArrayTypeStringParts(ts2, e2);
      TypeStringInjective(e1, e2);
  }

  /**
   * The first keyword of `words`, from the `i`-th on, spelled at `p`
   * ignoring case (and followed by a terminal when `terminal` is set).
   */
  function FirstMatch(s: string, p: nat, words: seq<(string, char)>, i: nat, terminal: bool): (r: Option<nat>)
    requires i <= |words|
    ensures r.Some? ==> i <= r.value < |words|
    decreases |words| - i
  {
    if i == |words| then None
    else if MatchesAt(s, p, words[i].0) && (terminal ==> TerminalAt(s, p + |words[i].0|)) then Some(i)
    else FirstMatch(s, p, words, i + 1, terminal)
  }

  /**
   * The keyword found is spelled at `p` (and followed by a terminal when
   * asked), and no keyword before it is; when none is found, none of them is.
   */
  lemma {:induction false} FirstMatchIsFirst(s: string, p: nat, words: seq<(string, char)>, i: nat, terminal: bool)
    requires i <= |words|
    ensures var r := FirstMatch(s, p, words, i, terminal);
      forall j :: i <= j < |words| && (r.None? || j <= r.value) ==>
        (MatchesAt(s, p, words[j].0) && (terminal ==> TerminalAt(s, p + |words[j].0|)) <==> r == Some(j))
    decreases |words| - i
  {
    if i < |words| {
      FirstMatchIsFirst(s, p, words, i + 1, terminal);
    }
  }

  /** The keywords are tried in order, each from the same cursor. */
  method MatchKeyword(s: string, c: CodeLocation, words: seq<(string, char)>, terminal: bool)
      returns (found: bool, k: nat, c': CodeLocation)
    requires InText(s, c)
    ensures found <==> FirstMatch(s, c.pos, words, 0, terminal).Some?
    ensures found ==> k == FirstMatch(s, c.pos, words, 0, terminal).value && c' == Plus(c, |words[k].0|) && InText(s, c')
    ensures !found ==> c' == c
  {
    var i := 0;
    while i < |words|
      invariant i <= |words|
      invariant FirstMatch(s, c.pos, words, i, terminal) == FirstMatch(s, c.pos, words, 0, terminal)
    {
      var ok, q := CheckString(s, c, words[i].0);
      if ok {
        var t := true;
        if terminal {
          t := IsTerminal(s, q);
        }
        if t {
          return true, i, q;
        }
      }
      i := i + 1;
    }
    return false, 0, c;
  }

  /** `r` with the letters `ls` put in front of the letters it read. */
  function Prefixed(ls: seq<char>, r: Option<(seq<char>, CodeLocation)>): Option<(seq<char>, CodeLocation)>
  {
    match r
    case None => None
    case Some((l, e)) => Some((ls + l, e))
  }

  /**
   * What `index_type_declaration` reads at `c`: the letters of the
   * keywords of `words` spelled there, separated by ',' and white space,
   * and the cursor after the last one; nothing when a keyword is missing,
   * at the start or after a ','.
   */
  function IndexListAt(s: string, c: CodeLocation, words: seq<(string, char)>): (r: Option<(seq<char>, CodeLocation)>)
    requires InText(s, c)
    requires forall i :: 0 <= i < |words| ==> |words[i].0| > 0 && words[i].1 in "ifbs"
    ensures r.Some? ==> InText(s, r.value.1) && c.pos < r.value.1.pos && |r.value.0| > 0 && SimpleTypes(r.value.0)
    decreases |s| - c.pos
  {
    var w := SkipWhitespace(s, c);
    match FirstMatch(s, w.pos, words, 0, false)
    case None => None
    case Some(k) =>
      FirstMatchIsFirst(s, w.pos, words, 0, false);
      assert MatchesAt(s, w.pos, words[k].0);
      var q := SkipWhitespace(s, Plus(w, |words[k].0|));
      if CheckSymbol(s, q, ',') then Prefixed([words[k].1], IndexListAt(s, Plus(q, 1), words))
      else Some(([words[k].1], q))
  }

  /** One keyword of the list: what is read at `p` is that keyword's letter and what follows it. */
  lemma IndexListStep(s: string, p: CodeLocation, words: seq<(string, char)>, found: Option<nat>)
    requires InText(s, p)
    requires forall i :: 0 <= i < |words| ==> |words[i].0| > 0 && words[i].1 in "ifbs"
    requires found == FirstMatch(s, SkipWhitespace(s, p).pos, words, 0, false)
    ensures found.None? ==> IndexListAt(s, p, words).None?
    ensures found.Some? ==>
      var w := SkipWhitespace(s, p); var k := found.value;
      InText(s, Plus(w, |words[k].0|))
      && var q := SkipWhitespace(s, Plus(w, |words[k].0|));
      IndexListAt(s, p, words) ==
        if CheckSymbol(s, q, ',') then Prefixed([words[k].1], IndexListAt(s, Plus(q, 1), words))
        else Some(([words[k].1], q))
  {
    if found.Some? {
      FirstMatchIsFirst(s, SkipWhitespace(s, p).pos, words, 0, false);
    }
  }

  /**
   * One turn of the loop of `index_type_declaration` that finds a ',' after
   * the keyword: the whole list reads the letters so far, this keyword's
   * letter, and what is read after the ','.
   */
  lemma IndexListComma(s: string, c: CodeLocation, start: CodeLocation, words: seq<(string, char)>, letters: seq<char>, k: nat, q: CodeLocation)
    requires InText(s, c) && InText(s, start)
    requires forall i :: 0 <= i < |words| ==> |words[i].0| > 0 && words[i].1 in "ifbs"
    requires FirstMatch(s, SkipWhitespace(s, start).pos, words, 0, false) == Some(k)
    requires IndexListAt(s, c, words) == Prefixed(letters, IndexListAt(s, start, words))
    requires InText(s, Plus(SkipWhitespace(s, start), |words[k].0|))
    requires q == SkipWhitespace(s, Plus(SkipWhitespace(s, start), |words[k].0|))
    requires CheckSymbol(s, q, ',')
    ensures IndexListAt(s, c, words) == Prefixed(letters + [words[k].1], IndexListAt(s, Plus(q, 1), words))
  {
    IndexListStep(s, start, words, Some(k));
    PrefixedSnoc(letters, words[k].1, IndexListAt(s, Plus(q, 1), words));
  }

  /**
   * One turn of the loop of `index_type_declaration` that finds no ','
   * after the keyword: the whole list ends there.
   */
  lemma IndexListLast(s: string, c: CodeLocation, start: CodeLocation, words: seq<(string, char)>, letters: seq<char>, k: nat, q: CodeLocation)
    requires InText(s, c) && InText(s, start)
    requires forall i :: 0 <= i < |words| ==> |words[i].0| > 0 && words[i].1 in "ifbs"
    requires FirstMatch(s, SkipWhitespace(s, start).pos, words, 0, false) == Some(k)
    requires IndexListAt(s, c, words) == Prefixed(letters, IndexListAt(s, start, words))
    requires InText(s, Plus(SkipWhitespace(s, start), |words[k].0|))
    requires q == SkipWhitespace(s, Plus(SkipWhitespace(s, start), |words[k].0|))
    requires !CheckSymbol(s, q, ',')
    ensures IndexListAt(s, c, words) == Some((letters + [words[k].1], q))
  {
    IndexListStep(s, start, words, Some(k));
  }

  lemma PrefixedSnoc(ls: seq<char>, x: char, r: Option<(seq<char>, CodeLocation)>)
    ensures Prefixed(ls, Prefixed([x], r)) == Prefixed(ls + [x], r)
  {
    if r.Some? {
      assert ls + ([x] + r.value.0) == (ls + [x]) + r.value.0;
    }
  }

  /** The index type keywords are not empty and name the simple types. */
  lemma IndexTypeWords()
    ensures forall i :: 0 <= i < |INDEX_TYPE_WORDS| ==> |INDEX_TYPE_WORDS[i].0| > 0 && INDEX_TYPE_WORDS[i].1 in "ifbs"
  {
    assert INDEX_TYPE_WORDS == [("int", 'i'), ("float", 'f'), ("string", 's'), ("boolean", 'b')];
  }

  /**
   * `index_type_declaration`: index type keywords separated by ','; a
   * keyword needs no terminal after it.  The result is their letters
   * separated by commas.
   */
  method IndexTypeDeclaration(s: string, c: CodeLocation) returns (ret: RetVal, types: string, c': CodeLocation, ghost letters: seq<char>)
    requires InText(s, c)
    ensures ret != FailContinue && InText(s, c')
    ensures ret == Ok ==> c.pos < c'.pos && |letters| > 0 && SimpleTypes(letters) && types == JoinTypes(letters)
    ensures ret != Ok ==> c' == c
    ensures ret == Ok <==> IndexListAt(s, c, INDEX_TYPE_WORDS).Some?
    ensures ret == Ok ==> IndexListAt(s, c, INDEX_TYPE_WORDS) == Some((letters, c'))
  {
    SimpleTypeWords();
    assert INDEX_TYPE_WORDS == TYPE_WORDS[..4];
    ret, types, c', letters := IndexTypeList(s, c, INDEX_TYPE_WORDS);
  }

  /** The loop of `index_type_declaration` over a list of keywords that name simple types. */
  method IndexTypeList(s: string, c: CodeLocation, words: seq<(string, char)>)
      returns (ret: RetVal, types: string, c': CodeLocation, ghost letters: seq<char>)
    requires InText(s, c)
    requires forall i :: 0 <= i < |words| ==> |words[i].0| > 0 && words[i].1 in "ifbs"
    ensures ret != FailContinue && InText(s, c')
    ensures ret == Ok ==> c.pos < c'.pos && |letters| > 0 && SimpleTypes(letters) && types == JoinTypes(letters)
    ensures ret != Ok ==> c' == c
    ensures ret == Ok <==> IndexListAt(s, c, words).Some?
    ensures ret == Ok ==> IndexListAt(s, c, words) == Some((letters, c'))
  {
    var p := c;
    types := "";
    letters := [];
    assert Prefixed([], IndexListAt(s, c, words)) == IndexListAt(s, c, words) by {
      if IndexListAt(s, c, words).Some? {
        assert [] + IndexListAt(s, c, words).value.0 == IndexListAt(s, c, words).value.0;
      }
    }
    while true
      invariant InText(s, p) && c.pos <= p.pos
      invariant IndexListAt(s, c, words) == Prefixed(letters, IndexListAt(s, p, words))
      invariant |letters| > 0 ==> c.pos < p.pos && SimpleTypes(letters) && types == JoinTypes(letters) + ","
      invariant |letters| == 0 ==> types == "" && p == c
      decreases |s| - p.pos
    {
      ghost var start := p;
      p := Whitespace(s, p);
      var found, k, q := MatchKeyword(s, p, words, false);
      if !found {
        IndexListStep(s, start, words, None);
        return FailStop, "", c, [];
      }
      var x := words[k].1;
      ghost var before := letters;
      if types != "" {
        Arrays.JoinTypesSnoc(letters, x);
        types := types + [x];
      } else {
        types := [x];
      }
      letters := letters + [x];
      p := Whitespace(s, q);
      if CheckSymbol(s, p, ',') {
        IndexListComma(s, c, start, words, before, k, p);
        types := types + ",";
        p := Plus(p, 1);
      } else {
        IndexListLast(s, c, start, words, before, k, p);
        return Ok, types, p, letters;
      }
    }
  }

  /**
   * The keyword chain of `type_declaration` as written: each keyword is
   * looked for with `check_string(...) && isTerminal(...)`, and a keyword
   * that is spelled but not followed by a terminal is not given back, so
   * the next keyword is looked for after it.  The result is the keyword
   * accepted and the cursor after it.
   */
  function TypeKeywordAsWritten(s: string, p: nat, words: seq<(string, char)>, i: nat): (r: (Option<nat>, nat))
    requires i <= |words|
    ensures p <= r.1
    ensures r.0.Some? ==> i <= r.0.value < |words| && r.1 <= |s|
    ensures r.0.None? ==> r.1 == p
    decreases |words| - i
  {
    if i == |words| then (None, p)
    else
      var w := words[i].0;
      if MatchesAt(s, p, w) then
        if TerminalAt(s, p + |w|) then (Some(i), p + |w|)
        else
          var r := TypeKeywordAsWritten(s, p + |w|, words, i + 1);
          if r.0.None? then (None, p) else r
      else TypeKeywordAsWritten(s, p, words, i + 1)
  }

  /** One keyword of `TypeKeywordAsWritten`: a miss tries the next one, a match without a terminal tries it after the match. */
  lemma TypeKeywordStep(s: string, p: nat, words: seq<(string, char)>, i: nat)
    requires i < |words|
    ensures var w, r := words[i].0, TypeKeywordAsWritten(s, p, words, i);
      (!MatchesAt(s, p, w) ==> r == TypeKeywordAsWritten(s, p, words, i + 1))
      && (MatchesAt(s, p, w) && !TerminalAt(s, p + |w|) ==>
            var n := TypeKeywordAsWritten(s, p + |w|, words, i + 1);
            (n.0.Some? ==> r == n) && (n.0.None? ==> r.0.None?))
  {
  }

  /**
   * The type keywords tried in order as `type_declaration` does: a keyword
   * spelled without a terminal after it moves the cursor past it.
   */
  method TypeKeyword(s: string, c: CodeLocation, words: seq<(string, char)>) returns (found: bool, k: nat, c': CodeLocation)
    requires InText(s, c)
    requires forall i :: 0 <= i < |words| ==> |words[i].0| > 0
    ensures var m := TypeKeywordAsWritten(s, c.pos, words, 0);
      found == m.0.Some? && (found ==> k == m.0.value && c' == Plus(c, m.1 - c.pos) && InText(s, c'))
    ensures found ==> k < |words| && c.pos < c'.pos
    ensures !found ==> c' == c
  {
    ghost var target := TypeKeywordAsWritten(s, c.pos, words, 0);
    var p := c;
    var i := 0;
    while i < |words|
      invariant i <= |words| && InText(s, p) && c.pos <= p.pos && p == Plus(c, p.pos - c.pos)
      invariant SearchAgrees(s, p.pos, words, i, target)
    {
      var done, q := TryTypeKeyword(s, c, p, words, i, target);
      if done {
        return true, i, q;
      }
      p := q;
      i := i + 1;
    }
    return false, 0, c;
  }

  /** Searching from keyword `i` at `p` finds what the whole search finds, or the whole search finds nothing. */
  ghost predicate SearchAgrees(s: string, p: nat, words: seq<(string, char)>, i: nat, target: (Option<nat>, nat))
    requires i <= |words|
  {
    var m := TypeKeywordAsWritten(s, p, words, i);
    if m.0.Some? then m == target else target.0.None?
  }

  /** One turn of the loop of `type_declaration`: keyword `i` at `p`, followed by a terminal or not. */
  method TryTypeKeyword(s: string, c: CodeLocation, p: CodeLocation, words: seq<(string, char)>, i: nat, ghost target: (Option<nat>, nat))
      returns (done: bool, p': CodeLocation)
    requires i < |words| && |words[i].0| > 0
    requires InText(s, p) && c.pos <= p.pos && p == Plus(c, p.pos - c.pos)
    requires SearchAgrees(s, p.pos, words, i, target)
    ensures InText(s, p') && c.pos <= p'.pos && p' == Plus(c, p'.pos - c.pos)
    ensures done ==> target == (Some(i), p'.pos) && c.pos < p'.pos
    ensures !done ==> SearchAgrees(s, p'.pos, words, i + 1, target)
  {
    var ok, q := CheckString(s, p, words[i].0);
    TypeKeywordStep(s, p.pos, words, i);
    p', done := p, false;
    if ok {
      var t := IsTerminal(s, q);
      PlusAdditive(c, p.pos - c.pos, |words[i].0|);
      p' := q;
      done := t;
    }
  }

  /** A type keyword found as written ends past the cursor and within the text. */
  lemma TypeKeywordAdvances(s: string, p: nat, words: seq<(string, char)>, i: nat)
    requires i <= |words| && forall j :: 0 <= j < |words| ==> |words[j].0| > 0
    ensures TypeKeywordAsWritten(s, p, words, i).0.Some? ==> p < TypeKeywordAsWritten(s, p, words, i).1 <= |s|
    decreases |words| - i
  {
    if i < |words| {
      TypeKeywordAdvances(s, p, words, i + 1);
      TypeKeywordAdvances(s, p + |words[i].0|, words, i + 1);
    }
  }

  /**
   * What `type_declaration` reads at `c`: the declaration and the cursor
   * after it, or nothing.  After white space the type keywords are tried
   * as `TypeKeywordAsWritten` says; a simple type keyword is the whole
   * declaration, and `array` goes on as `ArrayDeclAt` says.
   */
  function TypeDeclAt(s: string, c: CodeLocation): (r: Option<(TypeDecl, CodeLocation)>)
    requires InText(s, c)
    ensures r.Some? ==> InText(s, r.value.1) && c.pos < r.value.1.pos && ValidDecl(r.value.0)
    decreases |s| - c.pos, 1
  {
    var w := SkipWhitespace(s, c);
    SimpleTypeWords();
    TypeKeywordAdvances(s, w.pos, TYPE_WORDS, 0);
    var m := TypeKeywordAsWritten(s, w.pos, TYPE_WORDS, 0);
    if m.0.None? then None
    else if m.0.value < 4 then Some((Simple(TYPE_WORDS[m.0.value].1), Plus(w, m.1 - w.pos)))
    else ArrayDeclAt(s, Plus(w, m.1 - w.pos))
  }

  /** `TypeDeclAt` case by case on the keyword found. */
  lemma TypeDeclAtCases(s: string, c: CodeLocation)
    requires InText(s, c)
    ensures var w := SkipWhitespace(s, c); var m := TypeKeywordAsWritten(s, w.pos, TYPE_WORDS, 0);
      (m.0.None? ==> TypeDeclAt(s, c).None?)
      && (m.0.Some? && m.0.value < 4 ==> TypeDeclAt(s, c) == Some((Simple(TYPE_WORDS[m.0.value].1), Plus(w, m.1 - w.pos))))
      && (m.0.Some? && m.0.value >= 4 ==> m.0 == Some(4) && m.1 <= |s| && TypeDeclAt(s, c) == ArrayDeclAt(s, Plus(w, m.1 - w.pos)))
  {
    var w := SkipWhitespace(s, c);
    var m := TypeKeywordAsWritten(s, w.pos, TYPE_WORDS, 0);
    assert |TYPE_WORDS| == 5;
    SimpleTypeWords();
    TypeKeywordAdvances(s, w.pos, TYPE_WORDS, 0);
  }

  /**
   * What `type_declaration` reads after `array`: `[`, a list of index
   * type keywords as `IndexListAt` says, `]`, `of` and a type declaration,
   * with white space allowed before each.
   */
  function ArrayDeclAt(s: string, c: CodeLocation): (r: Option<(TypeDecl, CodeLocation)>)
    requires InText(s, c)
    ensures r.Some? ==> InText(s, r.value.1) && c.pos < r.value.1.pos && ValidDecl(r.value.0) && r.value.0.ArrayOf?
    decreases |s| - c.pos, 0
  {
    var p := SkipWhitespace(s, c);
    if !CheckSymbol(s, p, '[') then None
    else
      IndexTypeWords();
      match IndexListAt(s, Plus(p, 1), INDEX_TYPE_WORDS)
      case None => None
      case Some((letters, p1)) =>
        var p2 := SkipWhitespace(s, p1);
        if !CheckSymbol(s, p2, ']') then None
        else
          var p3 := SkipWhitespace(s, Plus(p2, 1));
          if !MatchesAt(s, p3.pos, "of") then None
          else
            match TypeDeclAt(s, Plus(p3, 2))
            case None => None
            case Some((e, p4)) => Some((ArrayOf(letters, e), p4))
  }

  /**
   * `type_declaration`: a simple type keyword, or `array [<index types>]
   * of <type>`; each keyword must end at a terminal (`of` need not).  Once
   * `array` is read, failure is FAIL_STOP.  The keywords are tried as
   * `TypeKeywordAsWritten` says.
   */
  method TypeDeclaration(s: string, c: CodeLocation) returns (ret: RetVal, t: string, c': CodeLocation, ghost d: TypeDecl)
    requires InText(s, c)
    ensures InText(s, c')
    ensures ret != Ok ==> c' == c
    ensures ret == Ok ==> c.pos < c'.pos && ValidDecl(d) && t == TypeString(d)
    ensures var w := SkipWhitespace(s, c); var m := TypeKeywordAsWritten(s, w.pos, TYPE_WORDS, 0);
      (ret == FailContinue <==> m.0.None?)
      && (m.0.Some? && m.0.value < 4 ==> ret == Ok && d == Simple(TYPE_WORDS[m.0.value].1) && c' == Plus(w, m.1 - w.pos))
    ensures ret == Ok <==> TypeDeclAt(s, c).Some?
    ensures ret == Ok ==> TypeDeclAt(s, c) == Some((d, c'))
    decreases |s| - c.pos, 2
  {
    SimpleTypeWords();
    ret, t, c', d := KeywordTypeDeclaration(s, c, TYPE_WORDS);
    TypeDeclAtCases(s, c);
  }

  /** `type_declaration` over a list of type keywords whose first four name the simple types and whose last is `array`. */
  method KeywordTypeDeclaration(s: string, c: CodeLocation, words: seq<(string, char)>)
      returns (ret: RetVal, t: string, c': CodeLocation, ghost d: TypeDecl)
    requires InText(s, c)
    requires |words| == 5 && forall i :: 0 <= i < |words| ==> |words[i].0| > 0
    requires forall i :: 0 <= i < 4 ==> ValidDecl(Simple(words[i].1))
    ensures InText(s, c')
    ensures ret != Ok ==> c' == c
    ensures ret == Ok ==> c.pos < c'.pos && ValidDecl(d) && t == TypeString(d)
    ensures var w := SkipWhitespace(s, c); var m := TypeKeywordAsWritten(s, w.pos, words, 0);
      (ret == FailContinue <==> m.0.None?)
      && (m.0.Some? && m.0.value < 4 ==> ret == Ok && d == Simple(words[m.0.value].1) && c' == Plus(w, m.1 - w.pos))
    ensures var w := SkipWhitespace(s, c); var m := TypeKeywordAsWritten(s, w.pos, words, 0);
      m.0 == Some(4) && m.1 <= |s| ==> var a := ArrayDeclAt(s, Plus(w, m.1 - w.pos));
        (ret == Ok <==> a.Some?) && (ret == Ok ==> a == Some((d, c')))
    decreases |s| - c.pos, 1
  {
    var w := Whitespace(s, c);
    var found, k, p := TypeKeyword(s, w, words);
    if !found {
      return FailContinue, "", c, Simple('i');
    }
    if k < 4 {
      d := Simple(words[k].1);
      return Ok, [words[k].1], p, d;
    }
    var r, at, q, e := ArrayTypeDeclaration(s, p);
    if r == Ok {
      return Ok, at, q, e;
    }
    return FailStop, "", c, Simple('i');
  }

  /** The type keywords are not empty, and the first four name the simple types. */
  lemma SimpleTypeWords()
    ensures forall i :: 0 <= i < |TYPE_WORDS| ==> |TYPE_WORDS[i].0| > 0
    ensures forall i :: 0 <= i < 4 ==> ValidDecl(Simple(TYPE_WORDS[i].1))
  {
  }

  /** The rest of `type_declaration` once `array` is read: `[<index types>] of <type>`. */
  method ArrayTypeDeclaration(s: string, c: CodeLocation) returns (ret: RetVal, t: string, c': CodeLocation, ghost d: TypeDecl)
    requires InText(s, c)
    ensures InText(s, c')
    ensures ret == Ok || ret == FailStop
    ensures ret != Ok ==> c' == c
    ensures ret == Ok ==> c.pos < c'.pos && ValidDecl(d) && t == TypeString(d)
    ensures ret == Ok <==> ArrayDeclAt(s, c).Some?
    ensures ret == Ok ==> ArrayDeclAt(s, c) == Some((d, c'))
    decreases |s| - c.pos, 0
  {
    IndexTypeWords();
    var p := c;
    p := Whitespace(s, p);
    if !CheckSymbol(s, p, '[') {
      return FailStop, "", c, Simple('i');
    }
    p := Plus(p, 1);
    var r, idx, p1, letters := IndexTypeDeclaration(s, p);
    if r != Ok {
      return FailStop, "", c, Simple('i');
    }
    p1 := Whitespace(s, p1);
    if !CheckSymbol(s, p1, ']') {
      return FailStop, "", c, Simple('i');
    }
    p1 := Plus(p1, 1);
    p1 := Whitespace(s, p1);
    var ok, p2 := CheckString(s, p1, "of");
    if !ok {
      return FailStop, "", c, Simple('i');
    }
    var r2, sub, p3, e := TypeDeclaration(s, p2);
    if r2 != Ok {
      return FailStop, "", c, Simple('i');
    }
    d := ArrayOf(letters, e);
    return Ok, "a [" + idx + "] " + sub, p3, d;
  }

  /**
   * As written, `intfloat x` declares a float `x`: "int" is read, is not
   * followed by a terminal, and "float" is then found after it.  Tried
   * from the same cursor, no type keyword is there.
   */
  lemma TypeKeywordAsWrittenRunsTogether()
    ensures TypeKeywordAsWritten("intfloat x", 0, TYPE_WORDS, 0) == (Some(1), 8)
    ensures FirstMatch("intfloat x", 0, TYPE_WORDS, 0, true).None?
  {
    var s := "intfloat x";
    assert MatchesAt(s, 0, "int") && !TerminalAt(s, 3);
    assert MatchesAt(s, 3, "float") && TerminalAt(s, 8);
    NoTypeKeywordAtIntFloat();
  }

  lemma NoTypeKeywordAtIntFloat()
    ensures FirstMatch("intfloat x", 0, TYPE_WORDS, 0, true).None?
  {
    var s := "intfloat x";
    assert !TerminalAt(s, 3);
    assert !MatchesAt(s, 0, "float") by { assert Upper(s[0 + 0]) != Upper("float"[0]); }
    assert !MatchesAt(s, 0, "string") by { assert Upper(s[0 + 0]) != Upper("string"[0]); }
    assert !MatchesAt(s, 0, "boolean") by { assert Upper(s[0 + 0]) != Upper("boolean"[0]); }
    assert !MatchesAt(s, 0, "array") by { assert Upper(s[0 + 0]) != Upper("array"[0]); }
  }
}
