/**
 * Properties of one `interpret` step and of the `execute` loop: how an
 * encoded instruction is decoded and dispatched, when the machine stops,
 * which instructions write memory and which only work on the operand
 * stack, the round trip of CALL and RETURN, the cells ALLOCVAR creates,
 * and the two places where the code as written differs from what the
 * compiler's output needs (SUB on a string variable, PUTINDADDR's index
 * order).
 */
module Steps {
  import opened Encoding
  import opened Arrays
  import opened Datatypes
  import opened Instructions
  import opened Text
  import opened Machine

  // ---------------------------------------------------------------------
  // Decoding and dispatch (vm.cpp:380-392, 1700-1790)
  // ---------------------------------------------------------------------

  /**
   * An instruction encoded at the code offset is decoded and executed with
   * the offset moved past its operands.
   */
  lemma StepExecutes(code: seq<byte>, s: State, env: Env, ins: Instr)
    requires Encodable(ins) && EncodedAt(code, s.pc, ins) && !ins.PutMemberAddr?
    ensures Step(code, s, env) == Execute(ins, s.pc, s.(pc := s.pc + |Encode(ins)|), env)
  {
    DecodeAt(code, s.pc, ins);
    assert code[s.pc] == Encode(ins)[0] == Opcode(ins);
    OpcodeOfPutMemberAddr(ins);
    StepDecoded(code, s, env, ins, s.pc + |Encode(ins)|);
  }

  /** Below the end of the code and off PUTMEMBERADDR, a step executes what decodes there. */
  lemma StepDecoded(code: seq<byte>, s: State, env: Env, ins: Instr, n: nat)
    requires s.pc < |code| && code[s.pc] != PUTMEMBERADDR && Decode(code, s.pc) == Some((ins, n))
    ensures Step(code, s, env) == Execute(ins, s.pc, s.(pc := n), env)
  {
  }

  /** Among the encodable instructions, only PUTMEMBERADDR has the PUTMEMBERADDR opcode. */
  lemma OpcodeOfPutMemberAddr(ins: Instr)
    requires Encodable(ins)
    ensures Opcode(ins) == PUTMEMBERADDR <==> ins.PutMemberAddr?
  {
  }

  /** The assignments, comparisons and arithmetic operators each execute by their family's step. */
  lemma ExecuteAssignment(ins: Instr, p: nat, s: State, env: Env)
    requires IsAssignment(ins)
    ensures Execute(ins, p, s, env) == AssignStep(ins, s)
  {
  }

  lemma ExecuteComparison(ins: Instr, p: nat, s: State, env: Env)
    requires IsComparison(ins)
    ensures Execute(ins, p, s, env) == CompareStep(ins, s)
  {
  }

  lemma ExecuteArithmetic(ins: Instr, p: nat, s: State, env: Env)
    requires IsArithmetic(ins)
    ensures Execute(ins, p, s, env) == ArithmeticStepAsWritten(ins, s)
  {
  }

  /**
   * The machine stops with OK_STOP exactly past the end of the code or at an
   * END opcode, and reports an invalid instruction exactly at DATA, DDATA
   * and FUN, whose contents the machine does not execute.
   */
  lemma StepStatus(code: seq<byte>, s: State, env: Env)
    ensures Step(code, s, env).status == OkStop <==> s.pc >= |code| || code[s.pc] == END
    ensures Step(code, s, env).status == InvalidInstruction <==>
      s.pc < |code| && (code[s.pc] == DATA || code[s.pc] == DDATA || code[s.pc] == FUN)
  {
    if s.pc < |code| && code[s.pc] != PUTMEMBERADDR {
      match Decode(code, s.pc)
      case None =>
        assert code[s.pc] != END && code[s.pc] != DATA && code[s.pc] != DDATA && code[s.pc] != FUN;
      case Some((ins, n)) =>
        DecodeOpcode(code, s.pc);
        ExecuteStatus(ins, s.pc, s.(pc := n), env);
        var op := code[s.pc];
        if op == END || op == DATA || op == DDATA || op == FUN {
          assert ins == NullaryInstr(op);
        }
    }
  }

  /** No instruction but END stops the machine, and only DATA, DDATA and FUN are invalid. */
  lemma {:induction false} ExecuteStatus(ins: Instr, p: nat, s: State, env: Env)
    ensures Execute(ins, p, s, env).status == OkStop <==> ins.End?
    ensures Execute(ins, p, s, env).status == InvalidInstruction <==> ins.Data? || ins.DData? || ins.Fun?
  {
    var st := Execute(ins, p, s, env).status;
    if IsAssignment(ins) {
      AssignStepStatus(ins, s);
    } else if IsComparison(ins) {
      CompareStepStatus(ins, s);
    } else if IsArithmetic(ins) {
      ArithmeticStepStatus(ins, s);
    } else if ins.PutIndAddr? {
      PutIndAddrStatus(s, ins.count as nat);
    } else if ins.Syscall? {
      SyscallStatus(s, ins.index, ins.name, env);
    } else if ins.AllocVars? {
      AllocVarsStatus(s, ins.index);
    }
  }

  /** The statuses an operand-kind table can answer with. */
  predicate Reported(st: ExecStatus)
  {
    st != OkStop && st != InvalidInstruction && st != OkRun
  }

  lemma ReportedStatuses(ins: Instr)
    ensures IsAssignment(ins) || IsComparison(ins) || IsArithmetic(ins) ==> Reported(Inconsistent(ins))
    ensures IsAssignment(ins) ==> Reported(ExpectedAddress(ins))
    ensures IsComparison(ins) ==> Reported(ArrayOrderNotSupported(ins))
  {
  }

  lemma AssignedStatus(ins: Instr, cur: Value, v: Value, fromAddress: bool, aliased: bool)
    requires IsAssignment(ins)
    ensures Assigned(ins, cur, v, fromAddress, aliased).Fail? ==> Reported(Assigned(ins, cur, v, fromAddress, aliased).status)
  {
    match ins
    case Move =>
    case MoveAdd =>
    case MoveSubtr =>
    case MoveMul =>
    case MoveDiv =>
  }

  lemma AssignStatus(ins: Instr, s: State, k: Kind, at: Address, val: Element)
    requires IsAssignment(ins)
    ensures Assign(ins, s, k, at, val).Fail? ==> Reported(Assign(ins, s, k, at, val).status)
  {
    ReportedStatuses(ins);
    var vk := FinalKind(val);
    if ConsistentAssignment(k, vk) && IsValueKind(vk) {
      var cur, v := Load(s, at), Fetch(s, val);
      if cur.Some? && v.Some? && KindOf(cur.value) == k {
        var a := Assigned(ins, cur.value, v.value, val.Ref?, val.Ref? && val.at == at);
        AssignedStatus(ins, cur.value, v.value, val.Ref?, val.Ref? && val.at == at);
        if a.Ok? {
          assert Assign(ins, s, k, at, val) == if Store(s, at, a.value).Some? then Ok(Store(s, at, a.value).value) else Fail(ExecError);
        } else {
          assert Assign(ins, s, k, at, val) == Fail(a.status);
        }
      } else {
        assert Assign(ins, s, k, at, val) == Fail(ExecError);
      }
    }
  }

  lemma AssignStepStatus(ins: Instr, s: State)
    requires IsAssignment(ins)
    ensures AssignStep(ins, s).status != OkStop && AssignStep(ins, s).status != InvalidInstruction
  {
    ReportedStatuses(ins);
    if |s.stack| >= 2 && s.stack[|s.stack| - 2].Ref? {
      var target := s.stack[|s.stack| - 2];
      AssignStatus(ins, Drop(s, 2), target.kind, target.at, s.stack[|s.stack| - 1]);
    }
  }

  lemma CompareStepStatus(ins: Instr, s: State)
    requires IsComparison(ins)
    ensures CompareStep(ins, s).status != OkStop && CompareStep(ins, s).status != InvalidInstruction
  {
    ReportedStatuses(ins);
  }

  lemma ArithmeticStepStatus(ins: Instr, s: State)
    requires IsArithmetic(ins)
    ensures ArithmeticStepAsWritten(ins, s).status != OkStop && ArithmeticStepAsWritten(ins, s).status != InvalidInstruction
  {
    ArithmeticResultStatus(ins, s);
    assert ArithmeticStepAsWritten(ins, s).status == ArithmeticStep(ins, s).status;
  }

  /** The status of an arithmetic operator before SUB's write-back. */
  lemma ArithmeticResultStatus(ins: Instr, s: State)
    requires IsArithmetic(ins)
    ensures ArithmeticStep(ins, s).status != OkStop && ArithmeticStep(ins, s).status != InvalidInstruction
  {
    ReportedStatuses(ins);
    if |s.stack| >= 2 {
      var r, l := s.stack[|s.stack| - 1], s.stack[|s.stack| - 2];
      var t := Drop(s, 2);
      if Consistent(FinalKind(l), FinalKind(r)) && Fetch(t, l).Some? && Fetch(t, r).Some? {
        BinaryStatus(ins, Fetch(t, l).value, Fetch(t, r).value);
      }
    }
  }

  lemma PutIndAddrStatus(s: State, n: nat)
    ensures PutIndAddrStepAsWritten(s, n).status != OkStop && PutIndAddrStepAsWritten(s, n).status != InvalidInstruction
  {
  }

  lemma SyscallStatus(s: State, i: nat, name: string, env: Env)
    ensures SyscallStep(s, i, name, env).status != OkStop && SyscallStep(s, i, name, env).status != InvalidInstruction
  {
  }

  lemma AllocVarsStatus(s: State, i: nat)
    ensures AllocVarsStep(s, i).status != OkStop && AllocVarsStep(s, i).status != InvalidInstruction
  {
    ReportedStatuses(Move);
    match Allocate(s, i)
    case None =>
    case Some((t, slot)) =>
      if |t.stack| >= 1 {
        var u, at, val := Drop(t, 1), Address(Dynamic(|s.callstack| - 1, slot), []), t.stack[|t.stack| - 1];
        var a := Assign(Move, u, DecodeDatatype(s.vars[i]), at, val);
        AssignStatus(Move, u, DecodeDatatype(s.vars[i]), at, val);
        assert AllocVarsStep(s, i) == if a.Ok? then Outcome(OkRun, a.value) else Outcome(a.status, u);
      }
  }

  // ---------------------------------------------------------------------
  // What the instructions write (vm.cpp:533-1536)
  // ---------------------------------------------------------------------

  /**
   * An assignment pops its two operands and writes at most the cell its
   * target address starts at; when it fails it writes nothing at all.
   */
  lemma AssignWritesOnlyTarget(ins: Instr, s: State)
    requires IsAssignment(ins) && |s.stack| >= 2
    ensures var o := AssignStep(ins, s);
      o.state.pc == s.pc && o.state.stack == s.stack[..|s.stack| - 2]
      && |o.state.vars| == |s.vars| && |o.state.callstack| == |s.callstack|
      && (o.status != OkRun ==> o.state == Drop(s, 2))
      && (o.status == OkRun ==> s.stack[|s.stack| - 2].Ref?)
      && forall r: Root :: (!s.stack[|s.stack| - 2].Ref? || r != s.stack[|s.stack| - 2].at.root) ==>
           RootValue(o.state, r) == RootValue(s, r)
  {
    var val, target, t := s.stack[|s.stack| - 1], s.stack[|s.stack| - 2], Drop(s, 2);
    if !target.Ref? {
      ReportedStatuses(ins);
      assert AssignStep(ins, s) == Outcome(ExpectedAddress(ins), t);
    } else {
      var a := Assign(ins, t, target.kind, target.at, val);
      AssignFrame(ins, t, target.kind, target.at, val);
      assert AssignStep(ins, s) == if a.Ok? then Outcome(OkRun, a.value) else Outcome(a.status, t);
    }
  }

  /** A successful `Assign` changes only the root it writes through, and keeps the stack and the offset. */
  lemma AssignFrame(ins: Instr, t: State, k: Kind, at: Address, val: Element)
    requires IsAssignment(ins)
    ensures var a := Assign(ins, t, k, at, val);
      a.Ok? ==>
        a.value.pc == t.pc && a.value.stack == t.stack
        && |a.value.vars| == |t.vars| && |a.value.callstack| == |t.callstack|
        && forall r: Root :: r != at.root ==> RootValue(a.value, r) == RootValue(t, r)
  {
    var vk := FinalKind(val);
    if ConsistentAssignment(k, vk) && IsValueKind(vk) {
      var cur, v := Load(t, at), Fetch(t, val);
      if cur.Some? && v.Some? && KindOf(cur.value) == k {
        match Assigned(ins, cur.value, v.value, val.Ref?, val.Ref? && val.at == at)
        case Fail(_) =>
        case Ok(w) => StoreThenLoad(t, at, w);
      }
    }
  }

  /**
   * A successful assignment of a value reads the target and the operand,
   * and afterwards the target holds what the assignment operator computes
   * from the two.
   */
  lemma AssignStores(ins: Instr, s: State)
    requires IsAssignment(ins) && |s.stack| >= 2
    requires AssignStep(ins, s).status == OkRun && IsValueKind(FinalKind(s.stack[|s.stack| - 1]))
    ensures var val, target, t := s.stack[|s.stack| - 1], s.stack[|s.stack| - 2], Drop(s, 2);
      target.Ref? && Load(t, target.at).Some? && Fetch(t, val).Some?
      && Assigned(ins, Load(t, target.at).value, Fetch(t, val).value, val.Ref?, val.Ref? && val.at == target.at).Ok?
      && Load(AssignStep(ins, s).state, target.at)
         == Some(Assigned(ins, Load(t, target.at).value, Fetch(t, val).value, val.Ref?, val.Ref? && val.at == target.at).value)
  {
    var val, target, t := s.stack[|s.stack| - 1], s.stack[|s.stack| - 2], Drop(s, 2);
    assert target.Ref?;
    AssignStepRuns(ins, s);
    AssignThenLoad(ins, t, target.kind, target.at, val);
  }

  /**
   * `a = a` for the array variable `a`: the operand is the target's own
   * cell, which `Array::operator=` clears before it copies, so the
   * variable ends up holding an array with no index types, no element
   * type and no elements.
   */
  lemma MoveArrayIntoItself(s: State, a: ArrayValue)
    requires |s.vars| == 1 && s.vars[0].address == Some(ArrV(a))
    requires s.stack == [Ref(ArrayKind, Address(Static(0), [])), Ref(ArrayKind, Address(Static(0), []))]
    ensures AssignStep(Move, s).status == OkRun
    ensures AssignStep(Move, s).state.vars[0].address == Some(ArrV(ArrayValue([], "", [])))
  {
    CompatibleReflexive(a.elementType);
    var t := Drop(s, 2);
    var at := Address(Static(0), []);
    assert Load(t, at) == Some(ArrV(a));
    assert Assigned(Move, ArrV(a), ArrV(a), true, true) == Ok(ArrV(ArrayValue([], "", [])));
    StoreThenLoad(t, at, ArrV(ArrayValue([], "", [])));
  }

  /** An assignment that runs had an address below its value and stores what `Assign` computes. */
  lemma AssignStepRuns(ins: Instr, s: State)
    requires IsAssignment(ins) && |s.stack| >= 2 && AssignStep(ins, s).status == OkRun
    ensures var val, target := s.stack[|s.stack| - 1], s.stack[|s.stack| - 2];
      target.Ref? && Assign(ins, Drop(s, 2), target.kind, target.at, val).Ok?
      && AssignStep(ins, s).state == Assign(ins, Drop(s, 2), target.kind, target.at, val).value
  {
    var val, target := s.stack[|s.stack| - 1], s.stack[|s.stack| - 2];
    if target.Ref? {
      AssignStatus(ins, Drop(s, 2), target.kind, target.at, val);
    }
  }

  /** What a successful `Assign` of a value stores is read back at the target. */
  lemma AssignThenLoad(ins: Instr, t: State, k: Kind, at: Address, val: Element)
    requires IsAssignment(ins) && Assign(ins, t, k, at, val).Ok? && IsValueKind(FinalKind(val))
    ensures Load(t, at).Some? && Fetch(t, val).Some?
      && Assigned(ins, Load(t, at).value, Fetch(t, val).value, val.Ref?, val.Ref? && val.at == at).Ok?
      && Load(Assign(ins, t, k, at, val).value, at)
         == Some(Assigned(ins, Load(t, at).value, Fetch(t, val).value, val.Ref?, val.Ref? && val.at == at).value)
  {
    var w := Assigned(ins, Load(t, at).value, Fetch(t, val).value, val.Ref?, val.Ref? && val.at == at).value;
    StoreThenLoad(t, at, w);
  }

  /**
   * A comparison pops its two operands and pushes the verdict of the
   * relation on their values; nothing in memory changes.
   */
  lemma CompareReadsOnly(ins: Instr, s: State)
    requires IsComparison(ins) && |s.stack| >= 2
    ensures var o, l, r := CompareStep(ins, s), s.stack[|s.stack| - 2], s.stack[|s.stack| - 1];
      o.state.vars == s.vars && o.state.callstack == s.callstack && o.state.pc == s.pc
      && (o.status == OkRun <==>
            Consistent(FinalKind(l), FinalKind(r)) && Fetch(s, l).Some? && Fetch(s, r).Some?
            && Relation(ins, Fetch(s, l).value, Fetch(s, r).value).Ok?)
      && (o.status == OkRun ==>
            o.state.stack == s.stack[..|s.stack| - 2] + [Item(BoolV(Relation(ins, Fetch(s, l).value, Fetch(s, r).value).value))])
      && (o.status != OkRun ==> o.state.stack == s.stack[..|s.stack| - 2])
  {
    FetchIgnoresStack(s, Drop(s, 2), s.stack[|s.stack| - 2]);
    FetchIgnoresStack(s, Drop(s, 2), s.stack[|s.stack| - 1]);
  }

  /**
   * The value MUL, DIV, ADD and SUB compute changes nothing in memory, and
   * a reported failure leaves the operands popped.
   */
  lemma ArithmeticReadsOnly(ins: Instr, s: State)
    requires IsArithmetic(ins) && |s.stack| >= 2
    ensures var o := ArithmeticStep(ins, s);
      o.state.vars == s.vars && o.state.callstack == s.callstack && o.state.pc == s.pc
      && (o.status != OkRun ==> o.state.stack == s.stack[..|s.stack| - 2])
  {
  }

  /**
   * MUL, DIV, ADD and SUB succeed exactly when the kinds agree, both
   * operands read and the operator is defined on their values; the result
   * replaces the two operands.  (SUB's write into its left operand, which
   * `SubWritesLeft` describes, changes neither.)
   */
  lemma ArithmeticPushes(ins: Instr, s: State)
    requires IsArithmetic(ins) && |s.stack| >= 2
    ensures var o, l, r := ArithmeticStep(ins, s), s.stack[|s.stack| - 2], s.stack[|s.stack| - 1];
      (o.status == OkRun <==>
            Consistent(FinalKind(l), FinalKind(r)) && Fetch(s, l).Some? && Fetch(s, r).Some?
            && Binary(ins, Fetch(s, l).value, Fetch(s, r).value).Ok?)
      && (o.status == OkRun ==>
            o.state.stack == s.stack[..|s.stack| - 2] + [Item(Binary(ins, Fetch(s, l).value, Fetch(s, r).value).value)])
  {
    ArithmeticRuns(ins, s);
    var l, r := s.stack[|s.stack| - 2], s.stack[|s.stack| - 1];
    if Consistent(FinalKind(l), FinalKind(r)) && Fetch(s, l).Some? && Fetch(s, r).Some?
       && Binary(ins, Fetch(s, l).value, Fetch(s, r).value).Ok? {
      ArithmeticPushed(ins, s);
    }
  }

  /** An arithmetic operator runs on exactly when its operands agree, can be read and combine. */
  lemma ArithmeticRuns(ins: Instr, s: State)
    requires IsArithmetic(ins) && |s.stack| >= 2
    ensures var o, l, r := ArithmeticStep(ins, s), s.stack[|s.stack| - 2], s.stack[|s.stack| - 1];
      o.status == OkRun <==>
        Consistent(FinalKind(l), FinalKind(r)) && Fetch(s, l).Some? && Fetch(s, r).Some?
        && Binary(ins, Fetch(s, l).value, Fetch(s, r).value).Ok?
  {
    var l, r, t := s.stack[|s.stack| - 2], s.stack[|s.stack| - 1], Drop(s, 2);
    FetchIgnoresStack(s, t, l);
    FetchIgnoresStack(s, t, r);
    ReportedStatuses(ins);
    if !Consistent(FinalKind(l), FinalKind(r)) {
      assert ArithmeticStep(ins, s) == Outcome(Inconsistent(ins), t);
    } else if Fetch(t, l).Some? && Fetch(t, r).Some? {
      var x, y := Fetch(t, l).value, Fetch(t, r).value;
      BinaryStatus(ins, x, y);
      assert ArithmeticStep(ins, s).status == if Binary(ins, x, y).Ok? then OkRun else Binary(ins, x, y).status;
    } else {
      assert ArithmeticStep(ins, s) == Outcome(ExecError, t);
    }
  }

  /** When it runs on, an arithmetic operator replaces its operands by the value they combine to. */
  lemma ArithmeticPushed(ins: Instr, s: State)
    requires IsArithmetic(ins) && |s.stack| >= 2
    requires var l, r := s.stack[|s.stack| - 2], s.stack[|s.stack| - 1];
      Consistent(FinalKind(l), FinalKind(r)) && Fetch(s, l).Some? && Fetch(s, r).Some?
      && Binary(ins, Fetch(s, l).value, Fetch(s, r).value).Ok?
    ensures var o, l, r := ArithmeticStep(ins, s), s.stack[|s.stack| - 2], s.stack[|s.stack| - 1];
      o.state.stack == s.stack[..|s.stack| - 2] + [Item(Binary(ins, Fetch(s, l).value, Fetch(s, r).value).value)]
  {
    var l, r, t := s.stack[|s.stack| - 2], s.stack[|s.stack| - 1], Drop(s, 2);
    FetchIgnoresStack(s, t, l);
    FetchIgnoresStack(s, t, r);
  }

  /** An arithmetic operator that fails reports why. */
  lemma BinaryStatus(ins: Instr, x: Value, y: Value)
    requires IsArithmetic(ins)
    ensures Binary(ins, x, y).Fail? ==> Reported(Binary(ins, x, y).status)
  {
    ReportedStatuses(ins);
    if IsNumber(x) && IsNumber(y) {
      NumericFailure(ins, x, y);
    }
  }

  /** On two numbers the operators fail only by a division by zero. */
  lemma NumericFailure(ins: Instr, x: Value, y: Value)
    requires IsArithmetic(ins) && IsNumber(x) && IsNumber(y)
    ensures Binary(ins, x, y).Fail? ==> ins.Div? && Binary(ins, x, y).status == DivDivBy0
  {
    if !ins.Div? {
      match ins
      case Mul =>
      case Add =>
      case Sub =>
    }
  }

  /** Reading an operand depends on memory, not on the operand stack or the code offset. */
  lemma FetchIgnoresStack(s: State, t: State, e: Element)
    requires t.vars == s.vars && t.callstack == s.callstack
    ensures Fetch(t, e) == Fetch(s, e)
  {
  }

  /**
   * JUMPIFFALSE pops a boolean condition: false jumps to the target, true
   * goes on; a condition of another kind is reported.
   */
  lemma JumpIfFalseBranches(s: State, target: u32, p: nat)
    requires |s.stack| >= 1
    ensures var o, e := JumpIfFalseStep(s, target, p), s.stack[|s.stack| - 1];
      o.state.stack == s.stack[..|s.stack| - 1] && o.state.vars == s.vars && o.state.callstack == s.callstack
      && (FinalKind(e) != BooleanKind ==> o.status == JumpiffalseConditionExpectedBoolean)
      && (Fetch(s, e) == Some(BoolV(false)) ==> o.status == OkRun && o.state.pc == target)
      && (Fetch(s, e) == Some(BoolV(true)) ==> o.status == OkRun && o.state.pc == s.pc)
  {
    FetchIgnoresStack(s, Drop(s, 1), s.stack[|s.stack| - 1]);
  }


  // ---------------------------------------------------------------------
  // Frames: CALL, RETURN, ALLOCVAR, PUTDADDR (vm.cpp:1541-1555, 1639-1789)
  // ---------------------------------------------------------------------

  /**
   * CALL pushes a frame whose return offset is the offset after the CALL
   * and jumps to the function; a RETURN that finds that frame on top drops
   * it and resumes after the CALL, whatever cells the function allocated in
   * the frame meanwhile.
   */
  lemma CallThenReturn(s: State, i: u32, p: nat, env: Env, u: State, cells: seq<CallStackValuePointer>, j: u32, q: nat)
    requires i < |s.vars| as int
    requires u.callstack == s.callstack + [CallStackEntry(s.pc, cells)]
    ensures var c := Execute(Call(i), p, s, env);
      c.status == OkRun && c.state.pc == FunRef(s.vars[i]) as nat
      && c.state.callstack == s.callstack + [CallStackEntry(s.pc, [])]
      && c.state.stack == s.stack && c.state.vars == s.vars
    ensures var r := Execute(Return(j), q, u, env);
      r.status == OkRun ==> r.state.callstack == s.callstack && r.state.pc == s.pc
    ensures j < |u.vars| as int && !IsValueKind(DecodeDatatype(u.vars[j])) ==>
      Execute(Return(j), q, u, env) == Outcome(OkRun, u.(callstack := s.callstack, pc := s.pc))
  {
    assert u.callstack[..|u.callstack| - 1] == s.callstack;
  }

  /**
   * RETURN of a typed function pushes the value of the function variable's
   * cell in the dropped frame.
   */
  lemma ReturnPushesResult(u: State, j: u32, q: nat, env: Env)
    requires |u.callstack| > 0 && j < |u.vars| as int
    requires IsValueKind(DecodeDatatype(u.vars[j]))
    ensures var f := u.callstack[|u.callstack| - 1];
      var cell := GetVariable(f, u.vars[j].callstackPos);
      var r := Execute(Return(j), q, u, env);
      (r.status == OkRun <==> cell.value.Some? && KindOf(cell.value.value) == DecodeDatatype(u.vars[j]))
      && (r.status == OkRun ==> r.state.stack == u.stack + [Item(cell.value.value)] && r.state.pc == f.returnIdx)
  {
  }

  /** RETURN outside any function reports that there is no return point. */
  lemma ReturnWithoutFrame(u: State, j: u32, q: nat, env: Env)
    requires |u.callstack| == 0
    ensures Execute(Return(j), q, u, env) == Outcome(ReturnNoReturnPoint, u.(pc := q + 1))
  {
  }

  /**
   * ALLOCVAR gives the DATA entry a fresh cell in the current frame, of
   * the entry's kind and holding what `FreshCell` puts in a new cell (the
   * source leaves an int, float or boolean cell uninitialised); a
   * following PUTDADDR of the same entry pushes that cell's address.
   */
  lemma AllocVarThenPutDAddr(s: State, i: u32)
    requires i < |s.vars| as int && |s.callstack| > 0
    requires |s.callstack[|s.callstack| - 1].variables| < TWO32
    ensures var a := AllocVarStep(s, i as nat);
      var top, slot := |s.callstack| - 1, |s.callstack[|s.callstack| - 1].variables|;
      var o := PutDAddrStep(a.state, i as nat);
      a.status == OkRun && o.status == OkRun
      && o.state.stack == s.stack + [Ref(DecodeDatatype(s.vars[i]), Address(Dynamic(top, slot), []))]
      && Load(o.state, Address(Dynamic(top, slot), [])) == FreshCell(s.vars[i].typeString)
      && o.state.callstack[..top] == s.callstack[..top]
      && o.state.callstack[top].variables[..slot] == s.callstack[top].variables
  {
    var d := s.vars[i];
    var top := |s.callstack| - 1;
    var c := CallStackValuePointer(DecodeDatatype(d), FreshCell(d.typeString));
    var (f, slot) := AddVariable(s.callstack[top], c);
    AddVariableThenGet(s.callstack[top], c);
    var t := Allocate(s, i as nat).value.0;
    assert t.vars[i].callstackPos as nat == slot;
    assert t.callstack[top] == f;
  }


  // ---------------------------------------------------------------------
  // Array elements: PUTINDADDR (vm.cpp:422-475)
  // ---------------------------------------------------------------------

  /** One more element position on a path reads one level deeper. */
  lemma {:induction false} FollowAppend(v: Value, path: seq<nat>, k: nat)
    ensures Follow(v, path + [k]) ==
      match Follow(v, path)
      case Some(w) => if w.ArrV? && k < |w.a.elements| then Some(w.a.elements[k].value) else None
      case None => None
    decreases |path|
  {
    if |path| == 0 {
      assert path + [k] == [k];
      assert [k][1..] == [];
    } else {
      assert (path + [k])[1..] == path[1..] + [k];
      if v.ArrV? && path[0] < |v.a.elements| {
        FollowAppend(v.a.elements[path[0]].value, path[1..], k);
      }
    }
  }

  /** Reading memory does not look at the operand stack. */
  lemma LoadIgnoresStack(s: State, t: State, a: Address)
    requires t.vars == s.vars && t.callstack == s.callstack
    ensures Load(t, a) == Load(s, a)
  {
  }

  /**
   * A successful PUTINDADDR (indexes taken top first, as the machine does)
   * replaces the array address and the indexes by
   * the address of one element of that array (found, or created when the
   * array had none with these indexes): the element's address extends the
   * array's by one position, reading it gives that element's value, and it
   * carries the kind of the array's element type.
   */
  lemma PutIndAddrReachesElement(s: State, n: nat)
    requires PutIndAddrStepAsWritten(s, n).status == OkRun
    ensures |s.stack| >= n + 1
    ensures var o, arr := PutIndAddrStepAsWritten(s, n).state, s.stack[|s.stack| - n - 1];
      |o.stack| == |s.stack| - n && o.stack[..|s.stack| - n - 1] == s.stack[..|s.stack| - n - 1]
      && arr.Ref? && o.stack[|s.stack| - n - 1].Ref?
      && var e := o.stack[|s.stack| - n - 1];
      e.at.root == arr.at.root && |e.at.path| == |arr.at.path| + 1 && e.at.path[..|arr.at.path|] == arr.at.path
      && Load(o, arr.at).Some? && Load(o, arr.at).value.ArrV?
      && var a := Load(o, arr.at).value.a;
      var k := e.at.path[|arr.at.path|];
      k < |a.elements| && Load(o, e.at) == Some(a.elements[k].value)
      && e.kind == KindOfChar(Head(a.elementType))
  {
    PutIndAddrNeedsOperands(s, n);
    var t, arr, idxs := Drop(s, n + 1), s.stack[|s.stack| - n - 1], Reversed(s.stack[|s.stack| - n..]);
    PutIndAddrUnfolds(s, n);
    ElementAddressReaches(t, arr, idxs);
  }

  /** PUTINDADDR runs on only when the array and its indexes are on the stack. */
  lemma PutIndAddrNeedsOperands(s: State, n: nat)
    ensures PutIndAddrStepAsWritten(s, n).status == OkRun ==> |s.stack| >= n + 1
  {
  }

  /** With its operands on the stack, PUTINDADDR addresses the element they name. */
  lemma PutIndAddrUnfolds(s: State, n: nat)
    requires |s.stack| >= n + 1
    ensures PutIndAddrStepAsWritten(s, n) == ElementAddress(Drop(s, n + 1), s.stack[|s.stack| - n - 1], Reversed(s.stack[|s.stack| - n..]))
  {
    assert !(|s.stack| < n + 1);
  }

  /** What `PutIndAddrReachesElement` says, for the operands once they are popped. */
  lemma ElementAddressReaches(t: State, arr: Element, idxs: seq<Element>)
    requires ElementAddress(t, arr, idxs).status == OkRun
    ensures var o := ElementAddress(t, arr, idxs).state;
      |o.stack| == |t.stack| + 1 && o.stack[..|t.stack|] == t.stack
      && arr.Ref? && o.stack[|t.stack|].Ref?
      && var e := o.stack[|t.stack|];
      e.at.root == arr.at.root && |e.at.path| == |arr.at.path| + 1 && e.at.path[..|arr.at.path|] == arr.at.path
      && Load(o, arr.at).Some? && Load(o, arr.at).value.ArrV?
      && var a := Load(o, arr.at).value.a;
      var k := e.at.path[|arr.at.path|];
      k < |a.elements| && Load(o, e.at) == Some(a.elements[k].value)
      && e.kind == KindOfChar(Head(a.elementType))
  {
    var a0 := Load(t, arr.at).value.a;
    var key := FetchAll(t, idxs).value;
    var (a1, pos) := Locate(a0, key, true);
    var k := pos.value;
    var u := Store(t, arr.at, ArrV(a1)).value;
    StoreThenLoad(t, arr.at, ArrV(a1));
    var e := Ref(KindOfChar(Head(a0.elementType)), Address(arr.at.root, arr.at.path + [k]));
    var o := Push(u, e);
    assert ElementAddress(t, arr, idxs).state == o;
    LoadIgnoresStack(u, o, arr.at);
    LoadIgnoresStack(u, o, e.at);
    FollowAppend(RootValue(u, arr.at.root).value, arr.at.path, k);
    assert e.at.path[..|arr.at.path|] == arr.at.path;
  }


  /**
   * The compiler pushes the array's address and then its indexes first to
   * last (parser.cpp:540-548).  For an array declared `a [i,s] i`, as
   * written the first index checked against the integer index type is the
   * last one pushed, the string, and the access is refused; taking the
   * indexes in the order they were pushed reaches the element.
   */
  lemma PutIndAddrIndexOrder(s: State)
    requires |s.vars| == 1 && s.vars[0].address == Some(ArrV(ArrayValue("is", "i", [])))
    requires s.stack == [Ref(ArrayKind, Address(Static(0), [])), Item(IntV(1)), Item(StrV("x"))]
    ensures PutIndAddrStepAsWritten(s, 2).status == PutindaddrInconsistentIndexDatatypes
    ensures PutIndAddrStep(s, 2).status == OkRun
  {
    var idxs := s.stack[1..];
    assert idxs == [Item(IntV(1)), Item(StrV("x"))];
    assert Reversed(idxs)[0] == Item(StrV("x"));
    assert !IsDatatypeMatch(Reversed(idxs)[0], IndexTypeAt("is", 0));
    assert IndexesFit(idxs, "is");
    var t := Drop(s, 3);
    FetchAllValues(t, idxs);
  }

  /** Index operands that are values are read as those values. */
  lemma {:induction false} FetchAllValues(t: State, es: seq<Element>)
    requires forall i :: 0 <= i < |es| ==> es[i].Item?
    ensures FetchAll(t, es).Some?
    ensures forall i :: 0 <= i < |es| ==> FetchAll(t, es).value[i] == es[i].value
    decreases |es|
  {
    if |es| > 0 {
      FetchAllValues(t, es[1..]);
    }
  }

  // ---------------------------------------------------------------------
  // SUB on strings (vm.cpp:1464-1507)
  // ---------------------------------------------------------------------

  /**
   * `x - "b"` where the variable `x` holds "abc": both versions push "ac";
   * as written the variable is left holding "ac" as well, because
   * `erase_all` edits the string behind the address in place.
   */
  lemma SubOnStringVariable(s: State)
    requires |s.vars| == 1 && s.vars[0].address == Some(StrV("abc"))
    requires s.stack == [Ref(StringKind, Address(Static(0), [])), Item(StrV("b"))]
    ensures ArithmeticStep(Sub, s) == Outcome(OkRun, s.(stack := [Item(StrV("ac"))]))
    ensures ArithmeticStepAsWritten(Sub, s).status == OkRun
    ensures ArithmeticStepAsWritten(Sub, s).state.vars[0].address == Some(StrV("ac"))
  {
    SubOnStringValue(s);
    var o := s.(stack := [Item(StrV("ac"))]);
    assert Store(o, Address(Static(0), []), StrV("ac")) == Some(SetRootValue(o, Static(0), StrV("ac")));
  }

  /** The value half of `SubOnStringVariable`: "abc" - "b" pushes "ac". */
  lemma SubOnStringValue(s: State)
    requires |s.vars| == 1 && s.vars[0].address == Some(StrV("abc"))
    requires s.stack == [Ref(StringKind, Address(Static(0), [])), Item(StrV("b"))]
    ensures ArithmeticStep(Sub, s) == Outcome(OkRun, s.(stack := [Item(StrV("ac"))]))
  {
    assert EraseAll("abc", "b") == "ac" by {
      assert "abc"[..1][0] != "b"[0] && "abc"[1..] == "bc";
      assert "bc"[..1] == "b" && "bc"[1..] == "c";
      assert "c"[..1][0] != "b"[0] && "c"[1..] == "";
    }
    assert Drop(s, 2).stack == [];
  }

  /**
   * SUB as the machine executes it: the status and the stack are those of
   * the computed difference; a left operand that is a string variable's
   * address is left holding the difference, and every other storage root
   * is as it was.  Any other operator, or a left operand that is a value,
   * writes nothing.
   */
  lemma SubWritesLeft(ins: Instr, s: State)
    requires IsArithmetic(ins) && |s.stack| >= 2
    ensures var o, w, l := ArithmeticStepAsWritten(ins, s), ArithmeticStep(ins, s), s.stack[|s.stack| - 2];
      o.status == w.status && o.state.stack == w.state.stack && o.state.pc == s.pc
      && (!(ins.Sub? && l.Ref?) ==> o == w)
      && (forall r: Root :: (!l.Ref? || r != l.at.root) ==> RootValue(o.state, r) == RootValue(s, r))
      && (ins.Sub? && l.Ref? && l.kind == StringKind && w.status == OkRun ==>
            Load(o.state, l.at) == Some(w.state.stack[|w.state.stack| - 1].value))
  {
    var o, w, l := ArithmeticStepAsWritten(ins, s), ArithmeticStep(ins, s), s.stack[|s.stack| - 2];
    ArithmeticReadsOnly(ins, s);
    ArithmeticPushes(ins, s);
    if ins.Sub? && l.Ref? && w.status == OkRun {
      var x := w.state.stack[|w.state.stack| - 1].value;
      LoadIgnoresStack(s, w.state, l.at);
      StoreThenLoad(w.state, l.at, x);
      if x.StrV? && Store(w.state, l.at, x).Some? {
        assert o == Outcome(OkRun, Store(w.state, l.at, x).value);
      } else {
        assert o == w;
      }
      if l.kind == StringKind {
        SubOfStrings(s);
      }
    } else {
      assert o == w;
    }
  }

  /** SUB of a string operand pushes a string. */
  lemma SubOfStrings(s: State)
    requires |s.stack| >= 2 && FinalKind(s.stack[|s.stack| - 2]) == StringKind && ArithmeticStep(Sub, s).status == OkRun
    ensures var w := ArithmeticStep(Sub, s).state; |w.stack| > 0 && w.stack[|w.stack| - 1].Item? && w.stack[|w.stack| - 1].value.StrV?
  {
    ArithmeticPushes(Sub, s);
  }

  // ---------------------------------------------------------------------
  // The execute loop (vm.cpp:251-265)
  // ---------------------------------------------------------------------

  /**
   * Iterating for m + n steps is iterating for m steps and then, unless
   * the machine stopped, for n more from where it got to.
   */
  lemma {:induction false} IterateSplit(step: State -> Outcome, s: State, m: nat, n: nat)
    ensures Iterate(step, s, m + n) ==
      if Iterate(step, s, m).status != OkRun then Iterate(step, s, m)
      else Iterate(step, Iterate(step, s, m).state, n)
    decreases m
  {
    if m > 0 {
      var o := step(s);
      if o.status == OkRun {
        IterateSplit(step, o.state, m - 1, n);
        assert m + n - 1 == (m - 1) + n;
      }
    }
  }

  /** The same for the machine's own step. */
  lemma RunSplit(code: seq<byte>, s: State, env: Env, m: nat, n: nat)
    ensures Run(code, s, env, m + n) ==
      if Run(code, s, env, m).status != OkRun then Run(code, s, env, m)
      else Run(code, Run(code, s, env, m).state, env, n)
  {
    IterateSplit((t: State) => Step(code, t, env), s, m, n);
  }

  /** With fuel left, running is one step and, unless that step stopped, the run from where it got to. */
  lemma RunStep(code: seq<byte>, s: State, env: Env, fuel: nat)
    requires fuel > 0
    ensures Run(code, s, env, fuel) ==
      var o := Step(code, s, env);
      if o.status != OkRun then o else Run(code, o.state, env, fuel - 1)
  {
  }

  /** A run that has reached `s` after `k` of its `fuel` steps goes on with the step from `s`. */
  lemma RunAdvances(code: seq<byte>, start: State, fuel: nat, s: State, env: Env, left: nat, left': nat, more: bool, status: ExecStatus, t: State)
    requires left > 0 && left' == left - 1 && Run(code, start, env, fuel) == Run(code, s, env, left)
    requires Step(code, s, env) == Outcome(status, t) && (more <==> status == OkRun)
    ensures Run(code, start, env, fuel) == if more then Run(code, t, env, left') else Outcome(status, t)
  {
    IterateOnce((u: State) => Step(code, u, env), s, left, left', Outcome(status, t));
  }

  /** With fuel left, iterating is the first step and, unless it stopped, the iteration from where it got to. */
  lemma IterateOnce(step: State -> Outcome, s: State, left: nat, left': nat, o: Outcome)
    requires left > 0 && left' == left - 1 && step(s) == o
    ensures Iterate(step, s, left) == if o.status != OkRun then o else Iterate(step, o.state, left')
  {
  }

  /** Once the machine has stopped, more fuel changes nothing. */
  lemma RunStopped(code: seq<byte>, s: State, env: Env, m: nat, n: nat)
    requires Run(code, s, env, m).status != OkRun && m <= n
    ensures Run(code, s, env, n) == Run(code, s, env, m)
  {
    RunSplit(code, s, env, m, n - m);
  }

  /** The loop stops for good at an END or past the end of the code, with OK_STOP. */
  lemma RunStopsAtEnd(code: seq<byte>, s: State, env: Env, n: nat)
    requires n > 0 && (s.pc >= |code| || code[s.pc] == END)
    ensures Run(code, s, env, n).status == OkStop
  {
    StepStatus(code, s, env);
  }

}
