/**
 * The semantics of the ants virtual machine (vm.h, vm.cpp) as functions on
 * a machine state: one call of `VM::interpret` is `Step`, and the loop of
 * `VM::execute` is `Run`.  The class in vm.dfy executes the same steps in
 * place and is proved to agree with these functions.
 *
 * An `Element` of the operand stack is a plain value or an address.  The
 * machine's addresses are handles instead of raw pointers: the storage cell
 * of a static variable (its DATA-section index), a cell of a call-stack
 * frame (the frame's depth and the cell's slot), or nothing (NULL); an
 * array element is reached from one of those by the positions of the
 * elements on the way down.  Elements of an array are never removed, so a
 * position stays valid for as long as its array lives.
 *
 * Where the source's behaviour is undefined (a pop from an empty stack, a
 * DATA index past the table, `callstack.back()` of an empty call stack, an
 * address with no value behind it, operands running past the end of the
 * code) the step stops with `ExecError`, the status the source declares and
 * never sets.
 */
module Machine {
  import opened Encoding
  import opened Arrays
  import opened Datatypes
  import opened Instructions
  import opened Text

  // ---------------------------------------------------------------------
  // Data types, elements and statuses (vm.h:7-127)
  // ---------------------------------------------------------------------

  /** `EDataTypes`. */
  datatype Kind = UnknownKind | IntKind | FloatKind | StringKind | BooleanKind | AddressKind | ArrayKind

  /** The kinds that have a value stored behind them. */
  predicate IsValueKind(k: Kind)
  {
    k == IntKind || k == FloatKind || k == StringKind || k == BooleanKind || k == ArrayKind
  }

  /** The kind a type string's first character names ('i', 'f', 's', 'b', 'a'), otherwise unknown. */
  function KindOfChar(c: char): (r: Kind)
    ensures r != AddressKind
    ensures IsValueKind(r) <==> c in "ifsba"
  {
    if c == 'i' then IntKind
    else if c == 'f' then FloatKind
    else if c == 's' then StringKind
    else if c == 'b' then BooleanKind
    else if c == 'a' then ArrayKind
    else UnknownKind
  }

  /** `VM::decodeDatatype`: the kind of a DATA-section entry, from its type string. */
  function DecodeDatatype(d: DataEntry): Kind
  {
    KindOfChar(Head(d.typeString))
  }

  /** The kind of a stored value. */
  function KindOf(v: Value): (r: Kind)
    ensures r == KindOfChar(TypeChar(v))
    ensures r != AddressKind
  {
    match v
    case IntV(_) => IntKind
    case FloatV(_) => FloatKind
    case StrV(_) => StringKind
    case BoolV(_) => BooleanKind
    case ArrV(_) => ArrayKind
    case NoValue => UnknownKind
  }

  /** Where an address handle starts. */
  datatype Root =
    | Static(index: nat)
    | Dynamic(frame: nat, slot: nat)
    | Null

  /** A handle for a storage cell, or for an element nested inside the array a cell holds. */
  datatype Address = Address(root: Root, path: seq<nat>)

  /**
   * `Element`: a value (a default-constructed element, UNKNOWN, is
   * `Item(NoValue)`) or an ADDRESS together with the kind it points to.
   */
  datatype Element =
    | Item(value: Value)
    | Ref(kind: Kind, at: Address)

  /** `Element::getDatatype`. */
  function ElementKind(e: Element): (r: Kind)
    ensures e.Ref? <==> r == AddressKind
  {
    match e
    case Item(v) => KindOf(v)
    case Ref(_, _) => AddressKind
  }

  /** `Element::getFinalDatatype`: the kind pointed to, or the value's own kind. */
  function FinalKind(e: Element): (r: Kind)
    ensures e.Item? ==> r == ElementKind(e)
    ensures e.Ref? ==> r == e.kind
  {
    match e
    case Item(v) => KindOf(v)
    case Ref(k, _) => k
  }

  /** `Element::isDatatypeMatch(d)`: the final kind is the one the type character `d` names. */
  predicate IsDatatypeMatch(e: Element, d: char)
  {
    var k := FinalKind(e);
    (d == 'i' && k == IntKind) || (d == 'f' && k == FloatKind) || (d == 'b' && k == BooleanKind)
    || (d == 's' && k == StringKind) || (d == 'a' && k == ArrayKind)
  }

  /** `VM::isDatatypeConsistent`: the same kind, or both numbers. */
  predicate Consistent(k1: Kind, k2: Kind)
  {
    k1 == k2 || ((k1 == IntKind || k1 == FloatKind) && (k2 == IntKind || k2 == FloatKind))
  }

  /** `VM::isDatatypeConsistentAssignment`: a `k2` may be stored in a `k1`. */
  predicate ConsistentAssignment(k1: Kind, k2: Kind)
  {
    k1 == k2 || (k1 == FloatKind && (k2 == IntKind || k2 == FloatKind))
  }

  /** `EExecStatus`, in the order of its enumerators. */
  datatype ExecStatus =
    | OkRun | OkStop | ExecError | InvalidInstruction
    | MoveExpectedAddress | MoveInconsistendDatatypes
    | MoveaddExpectedAddress | MoveaddInconsistendDatatypes
    | MovesubtrExpectedAddress | MovesubtrInconsistendDatatypes | MovesubtrBooleanNotSupported
    | MovemulExpectedAddress | MovemulInconsistendDatatypes | MovemulStringNotSupported
    | MovedivExpectedAddress | MovedivInconsistendDatatypes | MovedivDivBy0
    | MovedivStringNotSupported | MovedivBooleanNotSupported
    | EqualInconsistendDatatypes | NotequalInconsistendDatatypes | LessequalInconsistendDatatypes
    | GreaterequalInconsistendDatatypes | LessInconsistendDatatypes | GreaterInconsistendDatatypes
    | JumpiffalseConditionExpectedBoolean
    | MulInconsistendDatatypes | MulStringNotSupported
    | DivInconsistendDatatypes | DivDivBy0 | DivStringNotSupported | DivBooleanNotSupported
    | AddInconsistendDatatypes | SubInconsistendDatatypes
    | NegInconsistendDatatypes | NegStringNotSupported
    | SyscallSinStringNotSupported | SyscallSinBooleanNotSupported | SyscallSinInconsistentDatatypes
    | SyscallCosStringNotSupported | SyscallCosBooleanNotSupported | SyscallCosInconsistentDatatypes
    | SyscallUnknownFunction | ReturnNoReturnPoint
    | PutindaddrExpectedAddress | PutindaddrExpectedArray | PutindaddrInconsistentIndexDatatypes
    | MoveInconsistendArrayDatatypes | MoveaddArrayNotSupported
    | LessArrayNotSupported | GreaterequalArrayNotSupported | LessequalArrayNotSupported
    | GreaterArrayNotSupported | MullArrayNotSupported | DivArrayNotSupported
    | MovedivArrayNotSupported | MovesubtrArrayNotSupported | MovemulArrayNotSupported
    | AddArrayNotSupported | SubArrayNotSupported | NegArrayNotSupported

  /** A computed value, or the status that stops the machine instead. */
  datatype Result<T> = Ok(value: T) | Fail(status: ExecStatus)

  // ---------------------------------------------------------------------
  // The call stack (vm.h:131-194)
  // ---------------------------------------------------------------------

  /** `CallStackValuePointer`: a cell of a frame, its kind and its value (`None` is NULL). */
  datatype CallStackValuePointer = CallStackValuePointer(kind: Kind, value: Option<Value>)

  /** The frame's `DUMMY_VALUE`: UNKNOWN and NULL. */
  const DUMMY_VALUE: CallStackValuePointer := CallStackValuePointer(UnknownKind, None)

  /**
   * `CallStackEntry`: the code offset RETURN resumes at and the cells the
   * frame owns, in allocation order.
   */
  datatype CallStackEntry = CallStackEntry(returnIdx: nat, variables: seq<CallStackValuePointer>)

  /** `addVariable`: the cell is appended, and its slot is the old number of cells. */
  function AddVariable(f: CallStackEntry, c: CallStackValuePointer): (r: (CallStackEntry, nat))
    ensures r.0.returnIdx == f.returnIdx
    ensures r.1 == |f.variables| && |r.0.variables| == r.1 + 1
    ensures r.0.variables[..r.1] == f.variables
  {
    (f.(variables := f.variables + [c]), |f.variables|)
  }

  /** `getVariable`: the cell in slot `idx`, or the dummy cell when there is none. */
  function GetVariable(f: CallStackEntry, idx: nat): (r: CallStackValuePointer)
    ensures idx >= |f.variables| ==> r == DUMMY_VALUE
  {
    if idx >= |f.variables| then DUMMY_VALUE else f.variables[idx]
  }

  /** An added cell is found again in the slot `addVariable` returned, and no earlier slot changed. */
  lemma AddVariableThenGet(f: CallStackEntry, c: CallStackValuePointer)
    ensures GetVariable(AddVariable(f, c).0, AddVariable(f, c).1) == c
    ensures forall k :: 0 <= k < |f.variables| ==> GetVariable(AddVariable(f, c).0, k) == GetVariable(f, k)
  {
    var g := AddVariable(f, c).0;
    assert g.variables == f.variables + [c];
  }

  /** Cells added one after another to a new frame occupy slots 0, 1, 2, ... in that order. */
  function AddAll(f: CallStackEntry, cs: seq<CallStackValuePointer>): CallStackEntry
    decreases |cs|
  {
    if |cs| == 0 then f else AddAll(AddVariable(f, cs[0]).0, cs[1..])
  }

  lemma {:induction false} AddAllSlots(f: CallStackEntry, cs: seq<CallStackValuePointer>)
    ensures AddAll(f, cs).variables == f.variables + cs
    ensures AddAll(f, cs).returnIdx == f.returnIdx
    decreases |cs|
  {
    if |cs| > 0 {
      var g := AddVariable(f, cs[0]).0;
      AddAllSlots(g, cs[1..]);
      assert g.variables + cs[1..] == f.variables + cs;
    }
  }

  /** In a fresh frame, the i-th cell added is in slot i. */
  lemma FreshFrameSlots(ret: nat, cs: seq<CallStackValuePointer>, i: nat)
    requires i < |cs|
    ensures GetVariable(AddAll(CallStackEntry(ret, []), cs), i) == cs[i]
    ensures AddAll(CallStackEntry(ret, []), cs).returnIdx == ret
  {
    AddAllSlots(CallStackEntry(ret, []), cs);
  }

  // ---------------------------------------------------------------------
  // Machine state and storage
  // ---------------------------------------------------------------------

  /**
   * The state `interpret` works on: the code offset `idx`, the operand
   * stack, the call stack, and the DATA section whose entries hold the
   * static variables' cells.
   */
  datatype State = State(pc: nat, stack: seq<Element>, callstack: seq<CallStackEntry>, vars: seq<DataEntry>)

  /**
   * What the machine cannot compute itself: the `long double` a 12-byte
   * PUTFLOAT operand holds, and the library's `sin` and `cos`.
   */
  datatype Env = Env(floatOf: Block12 -> real, sin: real -> real, cos: real -> real)

  /** The value of the cell a root names; `None` for NULL, an empty cell or a dangling handle. */
  function RootValue(s: State, r: Root): Option<Value>
  {
    match r
    case Static(i) => if i < |s.vars| then s.vars[i].address else None
    case Dynamic(d, k) =>
      if d < |s.callstack| && k < |s.callstack[d].variables| then s.callstack[d].variables[k].value else None
    case Null => None
  }

  /** The same state with the cell of `r` holding `v`. */
  function SetRootValue(s: State, r: Root, v: Value): (t: State)
    requires RootValue(s, r).Some?
    ensures t.pc == s.pc && t.stack == s.stack
    ensures |t.vars| == |s.vars| && |t.callstack| == |s.callstack|
    ensures RootValue(t, r) == Some(v)
  {
    match r
    case Static(i) => s.(vars := s.vars[i := s.vars[i].(address := Some(v))])
    case Dynamic(d, k) =>
      var f := s.callstack[d];
      var c := f.variables[k];
      s.(callstack := s.callstack[d := f.(variables := f.variables[k := c.(value := Some(v))])])
  }

  /** The value reached from `v` by the element positions of `path`. */
  function Follow(v: Value, path: seq<nat>): Option<Value>
    decreases |path|
  {
    if |path| == 0 then Some(v)
    else if v.ArrV? && path[0] < |v.a.elements| then Follow(v.a.elements[path[0]].value, path[1..])
    else None
  }

  /** `v` with the value at `path` replaced by `nv`; `None` when the path leads nowhere. */
  function Replace(v: Value, path: seq<nat>, nv: Value): Option<Value>
    decreases |path|
  {
    if |path| == 0 then Some(nv)
    else if v.ArrV? && path[0] < |v.a.elements| then
      var e := v.a.elements[path[0]];
      match Replace(e.value, path[1..], nv)
      case None => None
      case Some(w) => Some(ArrV(v.a.(elements := v.a.elements[path[0] := e.(value := w)])))
    else None
  }

  /** Reading through an address. */
  function Load(s: State, a: Address): Option<Value>
  {
    match RootValue(s, a.root)
    case None => None
    case Some(v) => Follow(v, a.path)
  }

  /** Writing through an address; `None` when there is nothing behind it. */
  function Store(s: State, a: Address, nv: Value): Option<State>
  {
    match RootValue(s, a.root)
    case None => None
    case Some(v) =>
      match Replace(v, a.path, nv)
      case None => None
      case Some(w) => Some(SetRootValue(s, a.root, w))
  }

  /** A path that leads somewhere can be written, and reading it back gives what was written. */
  lemma {:induction false} ReplaceThenFollow(v: Value, path: seq<nat>, nv: Value)
    requires Follow(v, path).Some?
    ensures Replace(v, path, nv).Some?
    ensures Follow(Replace(v, path, nv).value, path) == Some(nv)
    decreases |path|
  {
    if |path| > 0 {
      var e := v.a.elements[path[0]];
      ReplaceThenFollow(e.value, path[1..], nv);
      var w := Replace(e.value, path[1..], nv).value;
      var es := v.a.elements[path[0] := e.(value := w)];
      assert Replace(v, path, nv) == Some(ArrV(v.a.(elements := es)));
      assert es[path[0]].value == w;
    }
  }

  /** Where `Replace` succeeds, `Follow` did too. */
  lemma {:induction false} ReplaceNeedsPath(v: Value, path: seq<nat>, nv: Value)
    requires Replace(v, path, nv).Some?
    ensures Follow(v, path).Some?
    decreases |path|
  {
    if |path| > 0 {
      ReplaceNeedsPath(v.a.elements[path[0]].value, path[1..], nv);
    }
  }

  /**
   * A store succeeds exactly when something is behind the address; the
   * value written is read back there, and every other root, the stack and
   * the code offset are as they were.
   */
  lemma StoreThenLoad(s: State, a: Address, nv: Value)
    ensures Store(s, a, nv).Some? <==> Load(s, a).Some?
    ensures Store(s, a, nv).Some? ==> Load(Store(s, a, nv).value, a) == Some(nv)
    ensures Store(s, a, nv).Some? ==>
      var t := Store(s, a, nv).value;
      t.pc == s.pc && t.stack == s.stack && |t.vars| == |s.vars| && |t.callstack| == |s.callstack|
      && forall r: Root :: r != a.root ==> RootValue(t, r) == RootValue(s, r)
  {
    match RootValue(s, a.root)
    case None =>
    case Some(v) =>
      if Follow(v, a.path).Some? {
        ReplaceThenFollow(v, a.path, nv);
      }
      if Replace(v, a.path, nv).Some? {
        ReplaceNeedsPath(v, a.path, nv);
        var w := Replace(v, a.path, nv).value;
        var t := SetRootValue(s, a.root, w);
        forall r: Root | r != a.root ensures RootValue(t, r) == RootValue(s, r) {
          SetRootElsewhere(s, a.root, w, r);
        }
      }
  }

  lemma SetRootElsewhere(s: State, r: Root, v: Value, q: Root)
    requires RootValue(s, r).Some? && q != r
    ensures RootValue(SetRootValue(s, r, v), q) == RootValue(s, q)
  {
  }

  // ---------------------------------------------------------------------
  // Operand values (vm.cpp:101-118, 1008-1536)
  // ---------------------------------------------------------------------

  /**
   * The value an operand stands for (`getVariablePhysicalAddress`, then a
   * read of the kind it claims): an element's own value, or the value at
   * its address.  An address of no value kind is never read, and stands
   * for no value.
   */
  function Fetch(s: State, e: Element): (r: Option<Value>)
    ensures r.Some? ==> KindOf(r.value) == FinalKind(e) || (r.value == NoValue && !IsValueKind(FinalKind(e)))
    ensures e.Item? ==> r == Some(e.value)
    ensures e.Ref? && !IsValueKind(e.kind) ==> r == Some(NoValue)
  {
    match e
    case Item(v) => Some(v)
    case Ref(k, a) =>
      if !IsValueKind(k) then Some(NoValue)
      else
        var v := Load(s, a);
        if v.Some? && KindOf(v.value) == k then v else None
  }

  predicate IsNumber(v: Value)
  {
    v.IntV? || v.FloatV?
  }

  /** A number as `long double`: integers convert exactly. */
  function Numeric(v: Value): real
  {
    match v
    case IntV(i) => i as real
    case FloatV(f) => f
    case _ => 0.0
  }

  /**
   * The order the comparison opcodes use, as -1, 0 or 1: numbers by value,
   * strings by `std::string` order, booleans with false before true.
   */
  function Order(x: Value, y: Value): (r: int)
    ensures -1 <= r <= 1
  {
    if IsNumber(x) && IsNumber(y) then
      if Numeric(x) < Numeric(y) then -1 else if Numeric(x) == Numeric(y) then 0 else 1
    else if x.StrV? && y.StrV? then
      if StrLess(x.s, y.s) then -1 else if x.s == y.s then 0 else 1
    else if x.BoolV? && y.BoolV? then
      if x.b == y.b then 0 else if y.b then -1 else 1
    else 0
  }

  predicate IsComparison(ins: Instr)
  {
    ins.Equal? || ins.NotEqual? || ins.LessEqual? || ins.GreaterEqual? || ins.Less? || ins.Greater?
  }

  predicate IsArithmetic(ins: Instr)
  {
    ins.Mul? || ins.Div? || ins.Add? || ins.Sub?
  }

  predicate IsAssignment(ins: Instr)
  {
    ins.Move? || ins.MoveAdd? || ins.MoveSubtr? || ins.MoveMul? || ins.MoveDiv?
  }

  /** The status an operator reports for operands of kinds it cannot combine. */
  function Inconsistent(ins: Instr): ExecStatus
  {
    match ins
    case Move => MoveInconsistendDatatypes
    case MoveAdd => MoveaddInconsistendDatatypes
    case MoveSubtr => MovesubtrInconsistendDatatypes
    case MoveMul => MovemulInconsistendDatatypes
    case MoveDiv => MovedivInconsistendDatatypes
    case Equal => EqualInconsistendDatatypes
    case NotEqual => NotequalInconsistendDatatypes
    case LessEqual => LessequalInconsistendDatatypes
    case GreaterEqual => GreaterequalInconsistendDatatypes
    case Less => LessInconsistendDatatypes
    case Greater => GreaterInconsistendDatatypes
    case Mul => MulInconsistendDatatypes
    case Div => DivInconsistendDatatypes
    case Add => AddInconsistendDatatypes
    case Sub => SubInconsistendDatatypes
    case Neg => NegInconsistendDatatypes
    case _ => ExecError
  }

  /** The status an assignment operator reports when its target is not an address. */
  function ExpectedAddress(ins: Instr): ExecStatus
  {
    match ins
    case Move => MoveExpectedAddress
    case MoveAdd => MoveaddExpectedAddress
    case MoveSubtr => MovesubtrExpectedAddress
    case MoveMul => MovemulExpectedAddress
    case MoveDiv => MovedivExpectedAddress
    case _ => ExecError
  }

  /** The status of an ordering comparison of two arrays. */
  function ArrayOrderNotSupported(ins: Instr): ExecStatus
  {
    match ins
    case LessEqual => LessequalArrayNotSupported
    case GreaterEqual => GreaterequalArrayNotSupported
    case Less => LessArrayNotSupported
    case Greater => GreaterArrayNotSupported
    case _ => ExecError
  }

  /** Whether the relation `ins` holds between values ordered `c`. */
  predicate Holds(ins: Instr, c: int)
  {
    match ins
    case Equal => c == 0
    case NotEqual => c != 0
    case LessEqual => c <= 0
    case GreaterEqual => c >= 0
    case Less => c < 0
    case Greater => c > 0
    case _ => false
  }

  /**
   * EQUAL … GREATER on two values whose kinds passed `isDatatypeConsistent`:
   * arrays compare only for (in)equality, and mixed kinds that are not both
   * numbers report the operator's inconsistency.
   */
  function Relation(ins: Instr, x: Value, y: Value): (r: Result<bool>)
    requires IsComparison(ins)
    ensures r.Ok? && !x.ArrV? ==> r.value == Holds(ins, Order(x, y))
  {
    if x.ArrV? && y.ArrV? then
      if ins.Equal? then Ok(ArrayEq(x.a, y.a))
      else if ins.NotEqual? then Ok(ArrayNe(x.a, y.a))
      else Fail(ArrayOrderNotSupported(ins))
    else if (IsNumber(x) && IsNumber(y)) || (x.StrV? && y.StrV?) || (x.BoolV? && y.BoolV?) then
      Ok(Holds(ins, Order(x, y)))
    else Fail(Inconsistent(ins))
  }

  /**
   * MUL, DIV, ADD and SUB on two values whose kinds passed
   * `isDatatypeConsistent`.  Integers wrap at 64 bits, a number mixed with
   * a float is a float, and DIV of two integers is a float.
   */
  function Binary(ins: Instr, x: Value, y: Value): Result<Value>
    requires IsArithmetic(ins)
  {
    if IsNumber(x) && IsNumber(y) then
      if x.IntV? && y.IntV? then
        match ins
        case Mul => Ok(IntV(Wrap64(x.i * y.i)))
        case Add => Ok(IntV(Wrap64(x.i + y.i)))
        case Sub => Ok(IntV(Wrap64(x.i - y.i)))
        case Div => if y.i == 0 then Fail(DivDivBy0) else Ok(FloatV(x.i as real / y.i as real))
      else
        var a, b := Numeric(x), Numeric(y);
        match ins
        case Mul => Ok(FloatV(a * b))
        case Add => Ok(FloatV(a + b))
        case Sub => Ok(FloatV(a - b))
        case Div => if b == 0.0 then Fail(DivDivBy0) else Ok(FloatV(a / b))
    else if x.StrV? && y.StrV? then
      match ins
      case Mul => Fail(MulStringNotSupported)
      case Div => Fail(DivStringNotSupported)
      case Add => Ok(StrV(x.s + y.s))
      case Sub => Ok(StrV(EraseAll(x.s, y.s)))
    else if x.BoolV? && y.BoolV? then
      match ins
      case Mul => Ok(BoolV(x.b && y.b))
      case Div => Fail(DivBooleanNotSupported)
      case Add => Ok(BoolV(x.b || y.b))
      case Sub => Ok(BoolV(x.b != y.b))
    else if x.ArrV? && y.ArrV? then
      match ins
      case Mul => Fail(MullArrayNotSupported)
      case Div => Fail(DivArrayNotSupported)
      case Add => Ok(ArrV(Merge(x.a, y.a)))
      case Sub => Fail(SubArrayNotSupported)
    else Fail(Inconsistent(ins))
  }

  /** NEG: numbers negate (integers wrap), booleans invert. */
  function Negate(x: Value): (r: Result<Value>)
    ensures r.Ok? ==> KindOf(r.value) == KindOf(x)
  {
    match x
    case IntV(i) => Ok(IntV(Wrap64(-i)))
    case FloatV(f) => Ok(FloatV(-f))
    case StrV(_) => Fail(NegStringNotSupported)
    case BoolV(b) => Ok(BoolV(!b))
    case ArrV(_) => Fail(NegArrayNotSupported)
    case NoValue => Fail(NegInconsistendDatatypes)
  }

  // ---------------------------------------------------------------------
  // Assignments: moveValue and the compound assignments (vm.cpp:267-1007)
  // ---------------------------------------------------------------------

  /**
   * The value `moveValue` leaves in a target holding `cur`: an integer
   * widens into a float target, and an array is replaced by the source
   * array when its element type accepts the source's.  `Array::operator=`
   * clears the target first, so an array assigned to its own cell
   * (`aliased`) ends up empty (array.cpp:458-468).
   */
  function MoveValue(cur: Value, v: Value, aliased: bool): Result<Value>
  {
    match (cur, v)
    case (IntV(_), IntV(j)) => Ok(IntV(j))
    case (FloatV(_), IntV(j)) => Ok(FloatV(j as real))
    case (FloatV(_), FloatV(g)) => Ok(FloatV(g))
    case (StrV(_), StrV(t)) => Ok(StrV(t))
    case (BoolV(_), BoolV(c)) => Ok(BoolV(c))
    case (ArrV(a), ArrV(b)) =>
      if Compatible(a.elementType, b.elementType) then Ok(ArrV(AssignedContents(b, aliased))) else Fail(MoveInconsistendArrayDatatypes)
    case _ => Fail(MoveInconsistendDatatypes)
  }

  /** MOVEADD: `+=` on numbers, string append, boolean or, array merge. */
  function MoveAddValue(cur: Value, v: Value): Result<Value>
  {
    match (cur, v)
    case (IntV(i), IntV(j)) => Ok(IntV(Wrap64(i + j)))
    case (FloatV(f), IntV(j)) => Ok(FloatV(f + j as real))
    case (FloatV(f), FloatV(g)) => Ok(FloatV(f + g))
    case (StrV(a), StrV(b)) => Ok(StrV(a + b))
    case (BoolV(a), BoolV(b)) => Ok(BoolV(a || b))
    case (ArrV(a), ArrV(b)) => Ok(ArrV(Merge(a, b)))
    case _ => Fail(MoveaddInconsistendDatatypes)
  }

  /**
   * MOVESUBTR: `-=` on numbers, erasure of every occurrence in a string,
   * and exclusive or of booleans, which the source accepts only from an
   * address operand.
   */
  function MoveSubtrValue(cur: Value, v: Value, fromAddress: bool): Result<Value>
  {
    match (cur, v)
    case (IntV(i), IntV(j)) => Ok(IntV(Wrap64(i - j)))
    case (FloatV(f), IntV(j)) => Ok(FloatV(f - j as real))
    case (FloatV(f), FloatV(g)) => Ok(FloatV(f - g))
    case (StrV(a), StrV(b)) => Ok(StrV(EraseAll(a, b)))
    case (BoolV(a), BoolV(b)) => if fromAddress then Ok(BoolV(a != b)) else Fail(MovesubtrBooleanNotSupported)
    case (ArrV(_), ArrV(_)) => Fail(MovesubtrArrayNotSupported)
    case _ => Fail(MovesubtrInconsistendDatatypes)
  }

  /** MOVEMUL: `*=` on numbers and boolean and. */
  function MoveMulValue(cur: Value, v: Value): Result<Value>
  {
    match (cur, v)
    case (IntV(i), IntV(j)) => Ok(IntV(Wrap64(i * j)))
    case (FloatV(f), IntV(j)) => Ok(FloatV(f * j as real))
    case (FloatV(f), FloatV(g)) => Ok(FloatV(f * g))
    case (StrV(_), StrV(_)) => Fail(MovemulStringNotSupported)
    case (BoolV(a), BoolV(b)) => Ok(BoolV(a && b))
    case (ArrV(_), ArrV(_)) => Fail(MovemulArrayNotSupported)
    case _ => Fail(MovemulInconsistendDatatypes)
  }

  /**
   * MOVEDIV: only a float target can be divided; a zero divisor is
   * reported, and address and plain operands divide alike.
   */
  function MoveDivValue(cur: Value, v: Value): Result<Value>
  {
    match (cur, v)
    case (IntV(_), IntV(_)) => Fail(MovedivInconsistendDatatypes)
    case (FloatV(f), IntV(j)) => if j == 0 then Fail(MovedivDivBy0) else Ok(FloatV(f / j as real))
    case (FloatV(f), FloatV(g)) => if g == 0.0 then Fail(MovedivDivBy0) else Ok(FloatV(f / g))
    case (StrV(_), StrV(_)) => Fail(MovedivStringNotSupported)
    case (BoolV(_), BoolV(_)) => Fail(MovedivBooleanNotSupported)
    case (ArrV(_), ArrV(_)) => Fail(MovedivArrayNotSupported)
    case _ => Fail(MovedivInconsistendDatatypes)
  }

  /**
   * MOVEDIV as written: the branch for a plain (non-address) divisor
   * multiplies the target by it (vm.cpp:974, 987).
   */
  function MoveDivValueAsWritten(cur: Value, v: Value, fromAddress: bool): Result<Value>
  {
    match (cur, v)
    case (FloatV(f), IntV(j)) =>
      if j == 0 then Fail(MovedivDivBy0) else Ok(FloatV(if fromAddress then f / j as real else f * j as real))
    case (FloatV(f), FloatV(g)) =>
      if g == 0.0 then Fail(MovedivDivBy0) else Ok(FloatV(if fromAddress then f / g else f * g))
    case _ => MoveDivValue(cur, v)
  }

  /**
   * The new value of the target of an assignment opcode, with MOVEDIV as
   * written; `aliased` says that the operand is the target's own address.
   */
  function Assigned(ins: Instr, cur: Value, v: Value, fromAddress: bool, aliased: bool): Result<Value>
    requires IsAssignment(ins)
  {
    match ins
    case Move => MoveValue(cur, v, aliased)
    case MoveAdd => MoveAddValue(cur, v)
    case MoveSubtr => MoveSubtrValue(cur, v, fromAddress)
    case MoveMul => MoveMulValue(cur, v)
    case MoveDiv => MoveDivValueAsWritten(cur, v, fromAddress)
  }

  // ---------------------------------------------------------------------
  // One instruction (VM::interpret, vm.cpp:380-1793)
  // ---------------------------------------------------------------------

  /** The status `interpret` leaves and the state after the instruction. */
  datatype Outcome = Outcome(status: ExecStatus, state: State)

  function Push(s: State, e: Element): (t: State)
    ensures t.stack == s.stack + [e]
    ensures t == s.(stack := t.stack)
  {
    s.(stack := s.stack + [e])
  }

  /** The state with the top `n` elements popped. */
  function Drop(s: State, n: nat): (t: State)
    requires n <= |s.stack|
    ensures t.stack == s.stack[..|s.stack| - n]
    ensures t == s.(stack := t.stack)
  {
    s.(stack := s.stack[..|s.stack| - n])
  }

  /**
   * Storing into the target of kind `k` at `at` what `ins` computes from
   * the target's value and `val`, after `isDatatypeConsistentAssignment`
   * has admitted the kinds.  Kinds without a value (UNKNOWN) store nothing.
   */
  function Assign(ins: Instr, s: State, k: Kind, at: Address, val: Element): Result<State>
    requires IsAssignment(ins)
  {
    var vk := FinalKind(val);
    if !ConsistentAssignment(k, vk) then Fail(Inconsistent(ins))
    else if !IsValueKind(vk) then Ok(s)
    else
      var cur, v := Load(s, at), Fetch(s, val);
      if cur.None? || v.None? || KindOf(cur.value) != k then Fail(ExecError)
      else
        match Assigned(ins, cur.value, v.value, val.Ref?, val.Ref? && val.at == at)
        case Fail(st) => Fail(st)
        case Ok(w) =>
          match Store(s, at, w)
          case Some(u) => Ok(u)
          case None => Fail(ExecError)
  }

  /** MOVE, MOVEADD, MOVESUBTR, MOVEMUL, MOVEDIV: the value is popped, then the target, which must be an address. */
  function AssignStep(ins: Instr, s: State): Outcome
    requires IsAssignment(ins)
  {
    if |s.stack| < 2 then Outcome(ExecError, s)
    else
      var val := s.stack[|s.stack| - 1];
      var target := s.stack[|s.stack| - 2];
      var t := Drop(s, 2);
      if !target.Ref? then Outcome(ExpectedAddress(ins), t)
      else
        match Assign(ins, t, target.kind, target.at, val)
        case Ok(u) => Outcome(OkRun, u)
        case Fail(st) => Outcome(st, t)
  }

  /** EQUAL … GREATER: the right operand is popped, then the left; the verdict is pushed. */
  function CompareStep(ins: Instr, s: State): Outcome
    requires IsComparison(ins)
  {
    if |s.stack| < 2 then Outcome(ExecError, s)
    else
      var r := s.stack[|s.stack| - 1];
      var l := s.stack[|s.stack| - 2];
      var t := Drop(s, 2);
      if !Consistent(FinalKind(l), FinalKind(r)) then Outcome(Inconsistent(ins), t)
      else
        match (Fetch(t, l), Fetch(t, r))
        case (Some(x), Some(y)) =>
          (match Relation(ins, x, y)
           case Ok(b) => Outcome(OkRun, Push(t, Item(BoolV(b))))
           case Fail(st) => Outcome(st, t))
        case _ => Outcome(ExecError, t)
  }

  /** MUL, DIV, ADD, SUB: the right operand is popped, then the left; the result is pushed. */
  function ArithmeticStep(ins: Instr, s: State): Outcome
    requires IsArithmetic(ins)
  {
    if |s.stack| < 2 then Outcome(ExecError, s)
    else
      var r := s.stack[|s.stack| - 1];
      var l := s.stack[|s.stack| - 2];
      var t := Drop(s, 2);
      if !Consistent(FinalKind(l), FinalKind(r)) then Outcome(Inconsistent(ins), t)
      else
        match (Fetch(t, l), Fetch(t, r))
        case (Some(x), Some(y)) =>
          (match Binary(ins, x, y)
           case Ok(v) => Outcome(OkRun, Push(t, Item(v)))
           case Fail(st) => Outcome(st, t))
        case _ => Outcome(ExecError, t)
  }

  /**
   * SUB as written: `erase_all` works on the left operand in place, so a
   * left operand that is a variable's address loses the erased text too
   * (vm.cpp:1494-1495).
   */
  function ArithmeticStepAsWritten(ins: Instr, s: State): Outcome
    requires IsArithmetic(ins)
  {
    var o := ArithmeticStep(ins, s);
    if ins.Sub? && o.status == OkRun && |s.stack| >= 2 && s.stack[|s.stack| - 2].Ref?
       && o.state.stack != [] && o.state.stack[|o.state.stack| - 1].Item?
       && o.state.stack[|o.state.stack| - 1].value.StrV? then
      var l := s.stack[|s.stack| - 2];
      match Store(o.state, l.at, o.state.stack[|o.state.stack| - 1].value)
      case Some(u) => Outcome(OkRun, u)
      case None => o
    else o
  }

  /** NEG: the operand is popped and its negation pushed; no consistency check comes first. */
  function NegStep(s: State): Outcome
  {
    if |s.stack| < 1 then Outcome(ExecError, s)
    else
      var e := s.stack[|s.stack| - 1];
      var t := Drop(s, 1);
      match Fetch(t, e)
      case Some(x) =>
        (match Negate(x)
         case Ok(v) => Outcome(OkRun, Push(t, Item(v)))
         case Fail(st) => Outcome(st, t))
      case None => Outcome(ExecError, t)
  }

  /**
   * JUMPIFFALSE: the condition is popped and must be boolean (checked
   * before the operand is read, so a failure leaves the offset just past
   * the opcode at `p`); false jumps to `target`, true goes on.
   */
  function JumpIfFalseStep(s: State, target: u32, p: nat): Outcome
  {
    if |s.stack| < 1 then Outcome(ExecError, s)
    else
      var e := s.stack[|s.stack| - 1];
      var t := Drop(s, 1);
      if FinalKind(e) != BooleanKind then Outcome(JumpiffalseConditionExpectedBoolean, t.(pc := p + 1))
      else
        match Fetch(t, e)
        case Some(BoolV(b)) => Outcome(OkRun, if b then t else t.(pc := target))
        case _ => Outcome(ExecError, t)
  }

  /**
   * The index types in order: the character at `i`, and past the end, where
   * the source reads outside its vector, '\0', which no operand matches.
   */
  function IndexTypeAt(ts: seq<char>, i: nat): char
  {
    if i < |ts| then ts[i] else '\0'
  }

  /** Every index operand has the final kind its index type names. */
  predicate IndexesFit(idxs: seq<Element>, ts: seq<char>)
  {
    forall i :: 0 <= i < |idxs| ==> IsDatatypeMatch(idxs[i], IndexTypeAt(ts, i))
  }

  function FetchAll(s: State, es: seq<Element>): (r: Option<seq<Value>>)
    ensures r.Some? ==> |r.value| == |es|
    decreases |es|
  {
    if |es| == 0 then Some([])
    else
      match (Fetch(s, es[0]), FetchAll(s, es[1..]))
      case (Some(v), Some(vs)) => Some([v] + vs)
      case _ => None
  }

  /**
   * The address of the element of the array at `arr` whose indexes are the
   * values of `idxs` (`getElement` with create), which is added when the
   * array has none; the address is pushed with the element type's kind.
   */
  function ElementAddress(t: State, arr: Element, idxs: seq<Element>): Outcome
  {
    if !arr.Ref? then Outcome(PutindaddrExpectedAddress, t)
    else if arr.kind != ArrayKind then Outcome(PutindaddrExpectedArray, t)
    else
      match Load(t, arr.at)
      case Some(ArrV(a)) =>
        if !IndexesFit(idxs, a.indexTypes) then Outcome(PutindaddrInconsistentIndexDatatypes, t)
        else
          (match FetchAll(t, idxs)
           case None => Outcome(ExecError, t)
           case Some(key) =>
             var (a', pos) := Locate(a, key, true);
             match pos
             case None => Outcome(ExecError, t)
             case Some(k) =>
               match Store(t, arr.at, ArrV(a'))
               case None => Outcome(ExecError, t)
               case Some(u) =>
                 Outcome(OkRun, Push(u, Ref(KindOfChar(Head(a.elementType)), Address(arr.at.root, arr.at.path + [k])))))
      case _ => Outcome(ExecError, t)
  }

  /**
   * PUTINDADDR n: the n index operands are taken in the order the compiler
   * pushed them (the first index deepest), then the array's address.
   */
  function PutIndAddrStep(s: State, n: nat): Outcome
  {
    if |s.stack| < n + 1 then Outcome(ExecError, s)
    else
      ElementAddress(Drop(s, n + 1), s.stack[|s.stack| - n - 1], s.stack[|s.stack| - n..])
  }

  /** The elements of `es` in reverse order. */
  function Reversed<T>(es: seq<T>): (r: seq<T>)
    ensures |r| == |es|
    ensures forall i :: 0 <= i < |es| ==> r[i] == es[|es| - 1 - i]
  {
    if |es| == 0 then [] else Reversed(es[1..]) + [es[0]]
  }

  /**
   * PUTINDADDR as written: the loop pops the indexes into a vector top
   * first, so `indexes[0]` is the last index the compiler pushed, and it is
   * checked against the first index type (vm.cpp:428-433, 456-463).
   */
  function PutIndAddrStepAsWritten(s: State, n: nat): Outcome
  {
    if |s.stack| < n + 1 then Outcome(ExecError, s)
    else
      ElementAddress(Drop(s, n + 1), s.stack[|s.stack| - n - 1], Reversed(s.stack[|s.stack| - n..]))
  }

  /** The argument of `sin` or `cos`, read as the kind of the parameter's DATA entry. */
  function SystemArgument(k: Kind, cell: Option<Value>, isSin: bool): Result<real>
  {
    match k
    case IntKind => if cell.Some? && cell.value.IntV? then Ok(cell.value.i as real) else Fail(ExecError)
    case FloatKind => if cell.Some? && cell.value.FloatV? then Ok(cell.value.f) else Fail(ExecError)
    case StringKind => Fail(if isSin then SyscallSinStringNotSupported else SyscallCosStringNotSupported)
    case BooleanKind => Fail(if isSin then SyscallSinBooleanNotSupported else SyscallCosBooleanNotSupported)
    case _ => Fail(if isSin then SyscallSinInconsistentDatatypes else SyscallCosInconsistentDatatypes)
  }

  /**
   * SYSCALL: the parameter's cell in the current frame is found through its
   * DATA entry, and "sin" or "cos" of it is pushed; any other name is
   * unknown.
   */
  function SyscallStep(s: State, i: nat, name: string, env: Env): Outcome
  {
    if i >= |s.vars| || |s.callstack| == 0 then Outcome(ExecError, s)
    else
      var d := s.vars[i];
      var cell := GetVariable(s.callstack[|s.callstack| - 1], d.callstackPos);
      if name == "sin" || name == "cos" then
        var isSin := name == "sin";
        match SystemArgument(DecodeDatatype(d), cell.value, isSin)
        case Ok(x) => Outcome(OkRun, Push(s, Item(FloatV(if isSin then env.sin(x) else env.cos(x)))))
        case Fail(st) => Outcome(st, s)
      else Outcome(SyscallUnknownFunction, s)
  }

  /**
   * RETURN: without a frame there is no return point (reported before the
   * operand is read).  Otherwise the frame is popped, the function
   * variable's value in it is pushed (nothing for an untyped function), and
   * execution resumes at the frame's return offset.
   */
  function ReturnStep(s: State, i: nat, p: nat): Outcome
  {
    if |s.callstack| == 0 then Outcome(ReturnNoReturnPoint, s.(pc := p + 1))
    else if i >= |s.vars| then Outcome(ExecError, s)
    else
      var f := s.callstack[|s.callstack| - 1];
      var t := s.(callstack := s.callstack[..|s.callstack| - 1]);
      var cell := GetVariable(f, s.vars[i].callstackPos);
      var k := DecodeDatatype(s.vars[i]);
      if !IsValueKind(k) then Outcome(OkRun, t.(pc := f.returnIdx))
      else if cell.value.Some? && KindOf(cell.value.value) == k then
        Outcome(OkRun, Push(t, Item(cell.value.value)).(pc := f.returnIdx))
      else Outcome(ExecError, t)
  }

  /** PUTADDR: the address of the DATA entry's cell, with the entry's kind. */
  function PutAddrStep(s: State, i: nat): Outcome
  {
    if i < |s.vars| then Outcome(OkRun, Push(s, Ref(DecodeDatatype(s.vars[i]), Address(Static(i), []))))
    else Outcome(ExecError, s)
  }

  /** CALL: a frame returning to the offset after the CALL is pushed, and the function's body is next. */
  function CallStep(s: State, i: nat): Outcome
  {
    if i < |s.vars| then
      Outcome(OkRun, s.(callstack := s.callstack + [CallStackEntry(s.pc, [])], pc := FunRef(s.vars[i])))
    else Outcome(ExecError, s)
  }

  /** INITVAR: the DATA entry's cell is reset to its type's default. */
  function InitVarStep(s: State, i: nat): Outcome
  {
    if i < |s.vars| then Outcome(OkRun, s.(vars := s.vars[i := SetToDefault(s.vars[i])]))
    else Outcome(ExecError, s)
  }

  /**
   * ALLOCVAR's allocation: a fresh cell for the DATA entry `i` is added to
   * the current frame, and its slot is recorded in the entry.
   */
  function Allocate(s: State, i: nat): (r: Option<(State, nat)>)
    ensures r.Some? <==> i < |s.vars| && |s.callstack| > 0
  {
    if i >= |s.vars| || |s.callstack| == 0 then None
    else
      var d := s.vars[i];
      var top := |s.callstack| - 1;
      var (f, slot) := AddVariable(s.callstack[top], CallStackValuePointer(DecodeDatatype(d), FreshCell(d.typeString)));
      Some((s.(callstack := s.callstack[top := f], vars := s.vars[i := SetCallStackPos(d, U32(slot))]), slot))
  }

  /** ALLOCVAR. */
  function AllocVarStep(s: State, i: nat): Outcome
  {
    match Allocate(s, i)
    case Some((t, _)) => Outcome(OkRun, t)
    case None => Outcome(ExecError, s)
  }

  /** ALLOCVARS: ALLOCVAR, then the popped value is moved into the new cell. */
  function AllocVarsStep(s: State, i: nat): Outcome
  {
    match Allocate(s, i)
    case None => Outcome(ExecError, s)
    case Some((t, slot)) =>
      if |t.stack| < 1 then Outcome(ExecError, t)
      else
        var val := t.stack[|t.stack| - 1];
        var u := Drop(t, 1);
        match Assign(Move, u, DecodeDatatype(s.vars[i]), Address(Dynamic(|s.callstack| - 1, slot), []), val)
        case Ok(w) => Outcome(OkRun, w)
        case Fail(st) => Outcome(st, u)
  }

  /** PUTDADDR: the address of the DATA entry's cell in the current frame, or the frame's dummy cell. */
  function PutDAddrStep(s: State, i: nat): Outcome
  {
    if i >= |s.vars| || |s.callstack| == 0 then Outcome(ExecError, s)
    else
      var top := |s.callstack| - 1;
      var pos := s.vars[i].callstackPos;
      if pos < |s.callstack[top].variables| then
        Outcome(OkRun, Push(s, Ref(s.callstack[top].variables[pos].kind, Address(Dynamic(top, pos), []))))
      else
        Outcome(OkRun, Push(s, Ref(DUMMY_VALUE.kind, Address(Null, []))))
  }

  /**
   * The effect of the instruction `ins` decoded at offset `p`; `s.pc` is
   * already the offset after its operands.
   */
  function Execute(ins: Instr, p: nat, s: State, env: Env): Outcome
  {
    match ins
    case Nop => Outcome(OkRun, s)
    case Data => Outcome(InvalidInstruction, s)
    case DData => Outcome(InvalidInstruction, s)
    case Fun => Outcome(InvalidInstruction, s)
    case PutAddr(i) => PutAddrStep(s, i)
    case PutIndAddr(n) => PutIndAddrStepAsWritten(s, n as nat)
    case PutMemberAddr(_) => Outcome(OkRun, s.(pc := p + 1))
    case PutInt(i) => Outcome(OkRun, Push(s, Item(IntV(i))))
    case PutFloat(b) => Outcome(OkRun, Push(s, Item(FloatV(env.floatOf(b)))))
    case PutString(t) => Outcome(OkRun, Push(s, Item(StrV(t))))
    case PutBoolean(b) => Outcome(OkRun, Push(s, Item(BoolV(b))))
    case Move => AssignStep(ins, s)
    case MoveAdd => AssignStep(ins, s)
    case MoveSubtr => AssignStep(ins, s)
    case MoveMul => AssignStep(ins, s)
    case MoveDiv => AssignStep(ins, s)
    case Equal => CompareStep(ins, s)
    case NotEqual => CompareStep(ins, s)
    case LessEqual => CompareStep(ins, s)
    case GreaterEqual => CompareStep(ins, s)
    case Less => CompareStep(ins, s)
    case Greater => CompareStep(ins, s)
    case JumpIfFalse(target) => JumpIfFalseStep(s, target, p)
    case Jump(target) => Outcome(OkRun, s.(pc := target))
    case Mul => ArithmeticStepAsWritten(ins, s)
    case Div => ArithmeticStepAsWritten(ins, s)
    case Add => ArithmeticStepAsWritten(ins, s)
    case Sub => ArithmeticStepAsWritten(ins, s)
    case Neg => NegStep(s)
    case End => Outcome(OkStop, s)
    case Call(i) => CallStep(s, i)
    case Syscall(i, name) => SyscallStep(s, i, name, env)
    case Return(i) => ReturnStep(s, i, p)
    case InitVar(i) => InitVarStep(s, i)
    case PutDAddr(i) => PutDAddrStep(s, i)
    case AllocVar(i) => AllocVarStep(s, i)
    case AllocVars(i) => AllocVarsStep(s, i)
    case Unassigned(_) => Outcome(OkRun, s)
  }

  /**
   * `VM::interpret`: past the end of the code the machine stops; otherwise
   * the instruction at the offset is decoded and executed.  PUTMEMBERADDR
   * is consumed as its opcode byte alone.
   */
  function Step(code: seq<byte>, s: State, env: Env): Outcome
  {
    if s.pc >= |code| then Outcome(OkStop, s)
    else if code[s.pc] == PUTMEMBERADDR then Outcome(OkRun, s.(pc := s.pc + 1))
    else
      match Decode(code, s.pc)
      case None => Outcome(ExecError, s.(pc := s.pc + 1))
      case Some((ins, n)) => Execute(ins, s.pc, s.(pc := n), env)
  }

  /** The loop of `VM::execute`, for at most `fuel` instructions. */
  function Run(code: seq<byte>, s: State, env: Env, fuel: nat): Outcome
  {
    Iterate((t: State) => Step(code, t, env), s, fuel)
  }

  /** Steps of `step` from `s` while they report OK_RUN, at most `fuel` of them. */
  function Iterate(step: State -> Outcome, s: State, fuel: nat): Outcome
    decreases fuel
  {
    if fuel == 0 then Outcome(OkRun, s)
    else
      var o := step(s);
      if o.status != OkRun then o else Iterate(step, o.state, fuel - 1)
  }

  // ---------------------------------------------------------------------
  // Properties of the operators
  // ---------------------------------------------------------------------

  /** Numbers, strings and booleans, which the ordering comparisons accept. */
  predicate Comparable(x: Value, y: Value)
  {
    (IsNumber(x) && IsNumber(y)) || (x.StrV? && y.StrV?) || (x.BoolV? && y.BoolV?)
  }

  /** `Order` is antisymmetric and reflexive on comparable values, and 0 means equal values of one kind. */
  lemma OrderAntisymmetric(x: Value, y: Value)
    requires Comparable(x, y)
    ensures Order(x, y) == -Order(y, x)
    ensures Order(x, x) == 0
    ensures Order(x, y) == 0 && KindOf(x) == KindOf(y) ==> x == y
  {
    if x.StrV? && y.StrV? {
      StrLessTrichotomy(x.s, y.s);
    }
    if x.StrV? {
      StrLessTrichotomy(x.s, x.s);
    }
  }

  /** `Order` is transitive. */
  lemma OrderTransitive(x: Value, y: Value, z: Value)
    requires Comparable(x, y) && Comparable(y, z)
    requires Order(x, y) < 0 && Order(y, z) < 0
    ensures Order(x, z) < 0
  {
    if x.StrV? {
      StrLessTransitive(x.s, y.s, z.s);
    }
  }

  /**
   * Swapping the operands swaps LESS with GREATER and LESSEQUAL with
   * GREATEREQUAL, and each comparison is the negation of its complement.
   */
  lemma ComparisonDuality(x: Value, y: Value)
    requires Comparable(x, y)
    ensures Relation(Less, x, y) == Relation(Greater, y, x)
    ensures Relation(LessEqual, x, y) == Relation(GreaterEqual, y, x)
    ensures Relation(GreaterEqual, x, y) == Ok(!Relation(Less, x, y).value)
    ensures Relation(LessEqual, x, y) == Ok(!Relation(Greater, x, y).value)
    ensures Relation(NotEqual, x, y) == Ok(!Relation(Equal, x, y).value)
    ensures Relation(Equal, x, y) == Relation(Equal, y, x)
  {
    OrderAntisymmetric(x, y);
  }

  /** EQUAL on numbers is equality of their values, whatever their kinds. */
  lemma EqualNumbers(x: Value, y: Value)
    requires IsNumber(x) && IsNumber(y)
    ensures Relation(Equal, x, y) == Ok(Numeric(x) == Numeric(y))
    ensures Relation(Less, x, y) == Ok(Numeric(x) < Numeric(y))
  {
  }

  /** Arrays compare only for equality and inequality; the four orderings report that arrays are not supported. */
  lemma ArrayComparisons(ins: Instr, a: ArrayValue, b: ArrayValue)
    requires IsComparison(ins)
    ensures ins.Equal? ==> Relation(ins, ArrV(a), ArrV(b)) == Ok(ArrayEq(a, b))
    ensures ins.NotEqual? ==> Relation(ins, ArrV(a), ArrV(b)) == Ok(ArrayNe(a, b))
    ensures !ins.Equal? && !ins.NotEqual? ==>
      Relation(ins, ArrV(a), ArrV(b)).Fail? && Relation(ins, ArrV(a), ArrV(b)).status == ArrayOrderNotSupported(ins)
  {
  }

  /** DIV reports a zero divisor exactly when both operands are numbers and the divisor is zero. */
  lemma DivisionByZero(x: Value, y: Value)
    ensures Binary(Div, x, y) == Fail(DivDivBy0) <==> IsNumber(x) && IsNumber(y) && Numeric(y) == 0.0
  {
  }

  /** DIV of numbers is exact division, and two integers give a float. */
  lemma DivisionIsExact(x: Value, y: Value)
    requires IsNumber(x) && IsNumber(y) && Numeric(y) != 0.0
    ensures Binary(Div, x, y).Ok? && Binary(Div, x, y).value.FloatV?
    ensures Binary(Div, x, y).value.f * Numeric(y) == Numeric(x)
  {
  }

  /** ADD and SUB of numbers: exact when one is a float, wrapped to 64 bits when both are integers. */
  lemma AddSubNumbers(x: Value, y: Value)
    requires IsNumber(x) && IsNumber(y)
    ensures x.IntV? && y.IntV? ==> Binary(Add, x, y) == Ok(IntV(Wrap64(x.i + y.i)))
    ensures !(x.IntV? && y.IntV?) ==> Binary(Add, x, y) == Ok(FloatV(Numeric(x) + Numeric(y)))
    ensures !(x.IntV? && y.IntV?) ==> Binary(Sub, x, y) == Ok(FloatV(Numeric(x) - Numeric(y)))
    ensures x.IntV? && y.IntV? && -(TWO63 as int) <= x.i + y.i < TWO63 ==> Binary(Add, x, y) == Ok(IntV(x.i + y.i))
  {
  }

  /** On booleans ADD is or, SUB exclusive or, MUL and; DIV is not supported. */
  lemma BooleanOperators(a: bool, b: bool)
    ensures Binary(Add, BoolV(a), BoolV(b)) == Ok(BoolV(a || b))
    ensures Binary(Sub, BoolV(a), BoolV(b)) == Ok(BoolV(a != b))
    ensures Binary(Mul, BoolV(a), BoolV(b)) == Ok(BoolV(a && b))
    ensures Binary(Div, BoolV(a), BoolV(b)) == Fail(DivBooleanNotSupported)
    ensures Negate(BoolV(a)) == Ok(BoolV(!a))
  {
  }

  /** On strings ADD appends and SUB erases; MUL, DIV and NEG are not supported. */
  lemma StringOperators(a: string, b: string)
    ensures Binary(Add, StrV(a), StrV(b)) == Ok(StrV(a + b))
    ensures Binary(Sub, StrV(a), StrV(b)) == Ok(StrV(EraseAll(a, b)))
    ensures Binary(Mul, StrV(a), StrV(b)) == Fail(MulStringNotSupported)
    ensures Binary(Div, StrV(a), StrV(b)) == Fail(DivStringNotSupported)
    ensures Negate(StrV(a)) == Fail(NegStringNotSupported)
  {
  }

  /** NEG twice gives the operand back, except for the one integer whose negation wraps. */
  lemma NegateTwice(x: Value)
    requires x.IntV? ==> -(TWO63 as int) < x.i < TWO63
    requires IsNumber(x) || x.BoolV?
    ensures Negate(x).Ok? && Negate(Negate(x).value) == Ok(x)
  {
  }

  /**
   * Every assignment that succeeds leaves the target holding a value of the
   * target's own kind: an integer stored in a float variable becomes a float.
   */
  lemma AssignedKeepsKind(ins: Instr, cur: Value, v: Value, fromAddress: bool, aliased: bool)
    requires IsAssignment(ins)
    requires Assigned(ins, cur, v, fromAddress, aliased).Ok?
    ensures KindOf(Assigned(ins, cur, v, fromAddress, aliased).value) == KindOf(cur)
  {
  }

  /** The kinds an assignment accepts are those of `isDatatypeConsistentAssignment`. */
  lemma AssignedNeedsConsistentKinds(ins: Instr, cur: Value, v: Value, fromAddress: bool, aliased: bool)
    requires IsAssignment(ins) && IsValueKind(KindOf(v))
    ensures !ConsistentAssignment(KindOf(cur), KindOf(v)) ==> Assigned(ins, cur, v, fromAddress, aliased) == Fail(Inconsistent(ins))
  {
  }

  /**
   * A compound assignment stores what the binary operator computes: `x += y`
   * is `x = x + y`, and likewise for -=, *= and, into a float and with a
   * divisor read through an address, /=.
   */
  lemma CompoundIsBinary(cur: Value, v: Value)
    requires ConsistentAssignment(KindOf(cur), KindOf(v)) && IsValueKind(KindOf(v))
    ensures Binary(Add, cur, v).Ok? ==> MoveAddValue(cur, v) == Binary(Add, cur, v)
    ensures Binary(Sub, cur, v).Ok? ==> MoveSubtrValue(cur, v, true) == Binary(Sub, cur, v)
    ensures Binary(Mul, cur, v).Ok? ==> MoveMulValue(cur, v) == Binary(Mul, cur, v)
    ensures cur.FloatV? && Binary(Div, cur, v).Ok? ==> MoveDivValueAsWritten(cur, v, true) == Binary(Div, cur, v)
  {
    match cur
    case IntV(_) =>
    case FloatV(f) =>
      if v.IntV? || v.FloatV? {
        // the product, compared field by field
        var r := Binary(Mul, cur, v);
        assert r.Ok? && r.value.FloatV?;
        assert r.value.f == f * Numeric(v);
        var m := MoveMulValue(cur, v);
        assert m.Ok? && m.value.FloatV? && m.value.f == f * Numeric(v);
        assert m == r;
      }
    case StrV(_) =>
    case BoolV(_) =>
    case ArrV(_) =>
    case NoValue =>
  }

  /** Integer MOVE into a float variable widens exactly. */
  lemma MoveWidens(f: real, j: int, aliased: bool)
    ensures MoveValue(FloatV(f), IntV(j), aliased) == Ok(FloatV(j as real))
    ensures MoveAddValue(FloatV(f), IntV(j)) == Ok(FloatV(f + j as real))
  {
  }

  /**
   * MOVE of arrays checks that the target's element type accepts the
   * source's, then copies the source; an array moved into its own cell is
   * emptied.
   */
  lemma MoveArrays(a: ArrayValue, b: ArrayValue)
    ensures Compatible(a.elementType, b.elementType) ==> MoveValue(ArrV(a), ArrV(b), false) == Ok(ArrV(b))
    ensures !Compatible(a.elementType, b.elementType) ==> forall al: bool :: MoveValue(ArrV(a), ArrV(b), al) == Fail(MoveInconsistendArrayDatatypes)
    ensures MoveValue(ArrV(a), ArrV(a), true) == Ok(ArrV(ArrayValue([], "", [])))
  {
    CompatibleReflexive(a.elementType);
  }

  /**
   * MOVEDIV divides: the target times the divisor is the old target, and a
   * divisor from an address and a plain one give the same result.
   */
  lemma MoveDivDivides(cur: Value, v: Value)
    requires MoveDivValue(cur, v).Ok?
    ensures cur.FloatV? && IsNumber(v) && Numeric(v) != 0.0
    ensures MoveDivValue(cur, v).value.FloatV?
    ensures MoveDivValue(cur, v).value.f * Numeric(v) == cur.f
    ensures forall al: bool :: Assigned(MoveDiv, cur, v, true, al) == MoveDivValue(cur, v)
  {
  }

  /** As written, MOVEDIV agrees with the corrected definition for a divisor read through an address. */
  lemma MoveDivAsWrittenFromAddress(cur: Value, v: Value)
    ensures MoveDivValueAsWritten(cur, v, true) == MoveDivValue(cur, v)
  {
  }

  /** As written, `x /= 2` with `x` holding 8.0 and a plain 2 leaves 16.0 where 4.0 is meant. */
  lemma MoveDivAsWrittenMultiplies()
    ensures Assigned(MoveDiv, FloatV(8.0), IntV(2), false, false) == Ok(FloatV(16.0))
    ensures MoveDivValue(FloatV(8.0), IntV(2)) == Ok(FloatV(4.0))
  {
  }
}
