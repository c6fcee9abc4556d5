/**
 * The virtual machine (class `VM`, vm.h): an operand stack and a call
 * stack, updated in place one instruction at a time by `Interpret`, and
 * the `Execute` loop that prepares the DATA section's cells, runs the code
 * and releases the cells again.
 *
 * Every method is proved against the step functions of `Machine`: the
 * stacks and the DATA section after a method are the state the matching
 * function computes from the state before it.
 */
module VirtualMachine {
  import opened Encoding
  import opened Arrays
  import opened Datatypes
  import opened Instructions
  import opened Assembler
  import opened Machine
  import opened Steps

  /** The DATA section once `makeAddresses` has given every variable entry its cell. */
  function Addressed(vs: seq<DataEntry>): (r: seq<DataEntry>)
    ensures |r| == |vs|
    ensures forall i :: 0 <= i < |vs| ==> r[i].(address := vs[i].address) == vs[i]
    ensures forall i :: 0 <= i < |vs| && vs[i].variableType == Variable && Head(vs[i].typeString) in "ifsba" ==>
      r[i].address == Some(DefaultValue(vs[i].typeString))
  {
    seq(|vs|, i requires 0 <= i < |vs| => if vs[i].variableType == Variable then MakeAddress(vs[i]) else vs[i])
  }

  /** The DATA section once `disposeAddresses` has released every variable entry's cell. */
  function Disposed(vs: seq<DataEntry>): (r: seq<DataEntry>)
    ensures |r| == |vs|
    ensures forall i :: 0 <= i < |vs| ==> r[i].(address := vs[i].address) == vs[i]
    ensures forall i :: 0 <= i < |vs| && vs[i].variableType == Variable ==> r[i].address == None
  {
    seq(|vs|, i requires 0 <= i < |vs| => if vs[i].variableType == Variable then DisposeAddress(vs[i]) else vs[i])
  }

  /** The instructions that push an operand, or do nothing. */
  predicate IsOperandInstr(ins: Instr)
  {
    ins.Nop? || ins.Data? || ins.DData? || ins.Fun? || ins.PutAddr? || ins.PutIndAddr? || ins.PutMemberAddr?
    || ins.PutInt? || ins.PutFloat? || ins.PutString? || ins.PutBoolean? || ins.Unassigned?
  }

  /** The instructions that combine operands. */
  predicate IsOperatorInstr(ins: Instr)
  {
    IsAssignment(ins) || IsComparison(ins) || IsArithmetic(ins) || ins.Neg?
  }

  class VM {
    var stack: seq<Element>
    var callstack: seq<CallStackEntry>

    /** The machine state at code offset `pc`, with the DATA section of `bc`. */
    function Snapshot(bc: Bytecode, pc: nat): State
      reads this, bc
    {
      State(pc, stack, callstack, bc.variables)
    }

    constructor ()
      ensures stack == [] && callstack == []
    {
      stack, callstack := [], [];
    }

    /** `VM::init`: the operand stack is cleared. */
    method Init()
      modifies this
      ensures stack == [] && callstack == old(callstack)
    {
      stack := [];
    }

    method Push(e: Element)
      modifies this
      ensures stack == old(stack) + [e] && callstack == old(callstack)
    {
      stack := stack + [e];
    }

    method Pop() returns (e: Element)
      requires |stack| > 0
      modifies this
      ensures e == old(stack)[|old(stack)| - 1]
      ensures stack == old(stack)[..|old(stack)| - 1] && callstack == old(callstack)
    {
      e := stack[|stack| - 1];
      stack := stack[..|stack| - 1];
    }

    /** Makes `s`, whose code offset is ignored, the machine's state. */
    method Install(bc: Bytecode, s: State)
      modifies this, bc`variables
      ensures stack == s.stack && callstack == s.callstack && bc.variables == s.vars
    {
      stack, callstack, bc.variables := s.stack, s.callstack, s.vars;
    }

    /**
     * The index operands of PUTINDADDR, popped one at a time and appended
     * to the vector (vm.cpp:428-433), so the result lists them top first:
     * the reverse of the order they were pushed in.
     */
    method PopIndexes(n: nat) returns (idxs: seq<Element>)
      requires n <= |stack|
      modifies this
      ensures idxs == Reversed(old(stack)[|old(stack)| - n..])
      ensures stack == old(stack)[..|old(stack)| - n] && callstack == old(callstack)
    {
      idxs := [];
      var i := 0;
      while i < n
        invariant 0 <= i <= n
        invariant |stack| == |old(stack)| - i
        invariant stack == old(stack)[..|old(stack)| - i]
        invariant idxs == Reversed(old(stack)[|old(stack)| - i..])
        invariant callstack == old(callstack)
      {
        ghost var k := |old(stack)| - i - 1;
        assert old(stack)[k..][1..] == old(stack)[|old(stack)| - i..];
        var e := Pop();
        idxs := idxs + [e];
        i := i + 1;
      }
    }

    /** PUTINDADDR: the indexes and the array's address are popped, and the element's address pushed. */
    method PutIndAddr(bc: Bytecode, n: nat, p: nat) returns (status: ExecStatus)
      modifies this, bc`variables
      ensures Outcome(status, Snapshot(bc, p)) == PutIndAddrStepAsWritten(old(Snapshot(bc, p)), n)
    {
      if |stack| < n + 1 {
        return ExecError;
      }
      var idxs := PopIndexes(n);
      var arr := Pop();
      assert stack == old(stack)[..|old(stack)| - n - 1];
      var o := ElementAddress(Snapshot(bc, p), arr, idxs);
      Install(bc, o.state);
      status := o.status;
    }

    /** MOVE and the compound assignments. */
    method Assignment(bc: Bytecode, ins: Instr, p: nat) returns (status: ExecStatus)
      requires IsAssignment(ins)
      modifies this, bc`variables
      ensures Outcome(status, Snapshot(bc, p)) == AssignStep(ins, old(Snapshot(bc, p)))
    {
      ghost var s0 := Snapshot(bc, p);
      if |stack| < 2 {
        return ExecError;
      }
      var val := Pop();
      var target := Pop();
      if !target.Ref? {
        return ExpectedAddress(ins);
      }
      var s := Snapshot(bc, p);
      assert s == Drop(s0, 2) && val == s0.stack[|s0.stack| - 1] && target == s0.stack[|s0.stack| - 2];
      match Assign(ins, s, target.kind, target.at, val)
      case Ok(u) =>
        Install(bc, u);
        status := OkRun;
      case Fail(st) =>
        status := st;
    }

    /** EQUAL … GREATER. */
    method Comparison(bc: Bytecode, ins: Instr, p: nat) returns (status: ExecStatus)
      requires IsComparison(ins)
      modifies this
      ensures Outcome(status, Snapshot(bc, p)) == CompareStep(ins, old(Snapshot(bc, p)))
    {
      ghost var s0 := Snapshot(bc, p);
      if |stack| < 2 {
        return ExecError;
      }
      var r := Pop();
      var l := Pop();
      if !Consistent(FinalKind(l), FinalKind(r)) {
        return Inconsistent(ins);
      }
      var s := Snapshot(bc, p);
      assert s == Drop(s0, 2) && r == s0.stack[|s0.stack| - 1] && l == s0.stack[|s0.stack| - 2];
      var x, y := Fetch(s, l), Fetch(s, r);
      if x.None? || y.None? {
        return ExecError;
      }
      match Relation(ins, x.value, y.value)
      case Ok(b) =>
        Push(Item(BoolV(b)));
        status := OkRun;
      case Fail(st) =>
        status := st;
    }

    /**
     * MUL, DIV, ADD, SUB; SUB of strings erases inside the left operand's
     * storage and so writes the difference into a left variable too.
     */
    method Arithmetic(bc: Bytecode, ins: Instr, p: nat) returns (status: ExecStatus)
      requires IsArithmetic(ins)
      modifies this, bc`variables
      ensures Outcome(status, Snapshot(bc, p)) == ArithmeticStepAsWritten(ins, old(Snapshot(bc, p)))
    {
      ghost var s0 := Snapshot(bc, p);
      if |stack| < 2 {
        return ExecError;
      }
      var r := Pop();
      var l := Pop();
      if !Consistent(FinalKind(l), FinalKind(r)) {
        return Inconsistent(ins);
      }
      var s := Snapshot(bc, p);
      assert s == Drop(s0, 2) && r == s0.stack[|s0.stack| - 1] && l == s0.stack[|s0.stack| - 2];
      var x, y := Fetch(s, l), Fetch(s, r);
      if x.None? || y.None? {
        return ExecError;
      }
      match Binary(ins, x.value, y.value)
      case Ok(v) =>
        Push(Item(v));
        status := OkRun;
        if ins.Sub? && l.Ref? && v.StrV? {
          match Store(Snapshot(bc, p), l.at, v)
          case Some(u) => Install(bc, u);
          case None =>
        }
      case Fail(st) =>
        status := st;
    }

    /** NEG. */
    method Negation(bc: Bytecode, p: nat) returns (status: ExecStatus)
      modifies this
      ensures Outcome(status, Snapshot(bc, p)) == NegStep(old(Snapshot(bc, p)))
    {
      if |stack| < 1 {
        return ExecError;
      }
      var e := Pop();
      var x := Fetch(Snapshot(bc, p), e);
      if x.None? {
        return ExecError;
      }
      match Negate(x.value)
      case Ok(v) =>
        Push(Item(v));
        status := OkRun;
      case Fail(st) =>
        status := st;
    }

    /** JUMPIFFALSE decoded at `p`, with `n` the offset after its operand. */
    method JumpIfFalse(bc: Bytecode, target: u32, p: nat, n: nat) returns (status: ExecStatus, next: nat)
      modifies this
      ensures Outcome(status, Snapshot(bc, next)) == JumpIfFalseStep(old(Snapshot(bc, n)), target, p)
    {
      next := n;
      if |stack| < 1 {
        return ExecError, next;
      }
      var e := Pop();
      if FinalKind(e) != BooleanKind {
        return JumpiffalseConditionExpectedBoolean, p + 1;
      }
      var x := Fetch(Snapshot(bc, n), e);
      if x.Some? && x.value.BoolV? {
        status := OkRun;
        if !x.value.b {
          next := target as nat;
        }
      } else {
        status := ExecError;
      }
    }

    /** CALL: a frame returning to `n` is pushed. */
    method Call(bc: Bytecode, i: u32, n: nat) returns (status: ExecStatus, next: nat)
      modifies this
      ensures Outcome(status, Snapshot(bc, next)) == CallStep(old(Snapshot(bc, n)), i as nat)
    {
      if i as nat >= |bc.variables| {
        return ExecError, n;
      }
      callstack := callstack + [CallStackEntry(n, [])];
      status, next := OkRun, FunRef(bc.variables[i]) as nat;
    }

    /** SYSCALL. */
    method Syscall(bc: Bytecode, i: u32, name: string, p: nat, env: Env) returns (status: ExecStatus)
      modifies this
      ensures Outcome(status, Snapshot(bc, p)) == SyscallStep(old(Snapshot(bc, p)), i as nat, name, env)
    {
      if i as nat >= |bc.variables| || |callstack| == 0 {
        return ExecError;
      }
      var d := bc.variables[i];
      var cell := GetVariable(callstack[|callstack| - 1], d.callstackPos);
      if name != "sin" && name != "cos" {
        return SyscallUnknownFunction;
      }
      var isSin := name == "sin";
      match SystemArgument(DecodeDatatype(d), cell.value, isSin)
      case Ok(x) =>
        Push(Item(FloatV(if isSin then env.sin(x) else env.cos(x))));
        status := OkRun;
      case Fail(st) =>
        status := st;
    }

    /** RETURN decoded at `p`, with `n` the offset after its operand. */
    method Return(bc: Bytecode, i: u32, p: nat, n: nat) returns (status: ExecStatus, next: nat)
      modifies this
      ensures Outcome(status, Snapshot(bc, next)) == ReturnStep(old(Snapshot(bc, n)), i as nat, p)
    {
      if |callstack| == 0 {
        return ReturnNoReturnPoint, p + 1;
      }
      if i as nat >= |bc.variables| {
        return ExecError, n;
      }
      var f := callstack[|callstack| - 1];
      callstack := callstack[..|callstack| - 1];
      var cell := GetVariable(f, bc.variables[i].callstackPos);
      var k := DecodeDatatype(bc.variables[i]);
      if !IsValueKind(k) {
        return OkRun, f.returnIdx;
      }
      if cell.value.Some? && KindOf(cell.value.value) == k {
        Push(Item(cell.value.value));
        return OkRun, f.returnIdx;
      }
      return ExecError, n;
    }

    /** ALLOCVAR: a cell for entry `i` in the current frame. */
    method AllocVar(bc: Bytecode, i: u32, p: nat) returns (status: ExecStatus)
      modifies this, bc`variables
      ensures Outcome(status, Snapshot(bc, p)) == AllocVarStep(old(Snapshot(bc, p)), i as nat)
    {
      if i as nat >= |bc.variables| || |callstack| == 0 {
        return ExecError;
      }
      var d := bc.variables[i];
      var top := |callstack| - 1;
      var (f, slot) := AddVariable(callstack[top], CallStackValuePointer(DecodeDatatype(d), FreshCell(d.typeString)));
      callstack := callstack[top := f];
      bc.variables := bc.variables[i := SetCallStackPos(d, U32(slot))];
      status := OkRun;
    }

    /** ALLOCVARS: ALLOCVAR, then the popped value is moved into the new cell. */
    method AllocVars(bc: Bytecode, i: u32, p: nat) returns (status: ExecStatus)
      modifies this, bc`variables
      ensures Outcome(status, Snapshot(bc, p)) == AllocVarsStep(old(Snapshot(bc, p)), i as nat)
    {
      ghost var s0 := Snapshot(bc, p);
      status := AllocVar(bc, i, p);
      if status != OkRun {
        return;
      }
      ghost var t := Allocate(s0, i as nat).value.0;
      assert Snapshot(bc, p) == t;
      if |stack| < 1 {
        return ExecError;
      }
      var slot := |callstack[|callstack| - 1].variables| - 1;
      assert slot == Allocate(s0, i as nat).value.1;
      var val := Pop();
      var s := Snapshot(bc, p);
      assert s == Drop(t, 1) && val == t.stack[|t.stack| - 1];
      assert bc.variables[i].typeString == old(bc.variables)[i].typeString;
      match Assign(Move, s, DecodeDatatype(bc.variables[i]), Address(Dynamic(|callstack| - 1, slot), []), val)
      case Ok(u) =>
        Install(bc, u);
      case Fail(st) =>
        status := st;
    }

    /** PUTADDR. */
    method PutAddr(bc: Bytecode, i: u32, p: nat) returns (status: ExecStatus)
      modifies this
      ensures Outcome(status, Snapshot(bc, p)) == PutAddrStep(old(Snapshot(bc, p)), i as nat)
    {
      if i as nat >= |bc.variables| {
        return ExecError;
      }
      Push(Ref(DecodeDatatype(bc.variables[i]), Address(Static(i as nat), [])));
      status := OkRun;
    }

    /** PUTDADDR: the address of the entry's cell in the current frame. */
    method PutDAddr(bc: Bytecode, i: u32, p: nat) returns (status: ExecStatus)
      modifies this
      ensures Outcome(status, Snapshot(bc, p)) == PutDAddrStep(old(Snapshot(bc, p)), i as nat)
    {
      if i as nat >= |bc.variables| || |callstack| == 0 {
        return ExecError;
      }
      var top := |callstack| - 1;
      var pos := bc.variables[i].callstackPos as nat;
      if pos < |callstack[top].variables| {
        Push(Ref(callstack[top].variables[pos].kind, Address(Dynamic(top, pos), [])));
      } else {
        Push(Ref(DUMMY_VALUE.kind, Address(Null, [])));
      }
      status := OkRun;
    }

    /** INITVAR. */
    method InitVar(bc: Bytecode, i: u32, p: nat) returns (status: ExecStatus)
      modifies this, bc`variables
      ensures Outcome(status, Snapshot(bc, p)) == InitVarStep(old(Snapshot(bc, p)), i as nat)
    {
      if i as nat >= |bc.variables| {
        return ExecError;
      }
      bc.variables := bc.variables[i := SetToDefault(bc.variables[i])];
      status := OkRun;
    }

    /**
     * The `switch` of `VM::interpret`: the instruction `ins` decoded at `p`,
     * with `n` the offset after its operands.
     */
    method Dispatch(bc: Bytecode, ins: Instr, p: nat, n: nat, env: Env) returns (status: ExecStatus, next: nat)
      modifies this, bc`variables
      ensures Outcome(status, Snapshot(bc, next)) == Machine.Execute(ins, p, old(Snapshot(bc, n)), env)
    {
      if IsOperandInstr(ins) {
        status, next := Operand(bc, ins, p, n, env);
      } else if IsOperatorInstr(ins) {
        status := Operator(bc, ins, n, env);
        next := n;
      } else {
        status, next := Control(bc, ins, p, n, env);
      }
    }

    /** NOP, the section markers, unassigned opcodes and the instructions that push an operand. */
    method Operand(bc: Bytecode, ins: Instr, p: nat, n: nat, env: Env) returns (status: ExecStatus, next: nat)
      requires IsOperandInstr(ins)
      modifies this, bc`variables
      ensures Outcome(status, Snapshot(bc, next)) == Machine.Execute(ins, p, old(Snapshot(bc, n)), env)
    {
      next := n;
      match ins
      case Nop => status := OkRun;
      case Data => status := InvalidInstruction;
      case DData => status := InvalidInstruction;
      case Fun => status := InvalidInstruction;
      case PutAddr(i) => status := PutAddr(bc, i, n);
      case PutIndAddr(c) => status := PutIndAddr(bc, c as nat, n);
      case PutMemberAddr(_) => status, next := OkRun, p + 1;
      case PutInt(i) =>
        Push(Item(IntV(i)));
        status := OkRun;
      case PutFloat(b) =>
        Push(Item(FloatV(env.floatOf(b))));
        status := OkRun;
      case PutString(t) =>
        Push(Item(StrV(t)));
        status := OkRun;
      case PutBoolean(b) =>
        Push(Item(BoolV(b)));
        status := OkRun;
      case Unassigned(_) => status := OkRun;
    }

    /** The assignments, comparisons and arithmetic operators. */
    method Operator(bc: Bytecode, ins: Instr, n: nat, env: Env) returns (status: ExecStatus)
      requires IsOperatorInstr(ins)
      modifies this, bc`variables
      ensures Outcome(status, Snapshot(bc, n)) == Machine.Execute(ins, n, old(Snapshot(bc, n)), env)
    {
      if IsAssignment(ins) {
        ExecuteAssignment(ins, n, old(Snapshot(bc, n)), env);
        status := Assignment(bc, ins, n);
      } else if IsComparison(ins) {
        ExecuteComparison(ins, n, old(Snapshot(bc, n)), env);
        status := Comparison(bc, ins, n);
      } else if IsArithmetic(ins) {
        ExecuteArithmetic(ins, n, old(Snapshot(bc, n)), env);
        status := Arithmetic(bc, ins, n);
      } else {
        status := Negation(bc, n);
      }
    }

    /** Jumps, calls and the frame instructions. */
    method Control(bc: Bytecode, ins: Instr, p: nat, n: nat, env: Env) returns (status: ExecStatus, next: nat)
      requires !IsOperandInstr(ins) && !IsOperatorInstr(ins)
      modifies this, bc`variables
      ensures Outcome(status, Snapshot(bc, next)) == Machine.Execute(ins, p, old(Snapshot(bc, n)), env)
    {
      next := n;
      match ins
      case JumpIfFalse(target) => status, next := JumpIfFalse(bc, target, p, n);
      case Jump(target) => status, next := OkRun, target as nat;
      case End => status := OkStop;
      case Call(i) => status, next := Call(bc, i, n);
      case Syscall(i, name) => status := Syscall(bc, i, name, n, env);
      case Return(i) => status, next := Return(bc, i, p, n);
      case InitVar(i) => status := InitVar(bc, i, n);
      case PutDAddr(i) => status := PutDAddr(bc, i, n);
      case AllocVar(i) => status := AllocVar(bc, i, n);
      case AllocVars(i) => status := AllocVars(bc, i, n);
    }

    /**
     * `VM::interpret`: one instruction at offset `idx` is decoded and
     * executed; `more` says whether the machine goes on.
     */
    method Interpret(bc: Bytecode, env: Env, idx: nat) returns (more: bool, status: ExecStatus, next: nat)
      modifies this, bc`variables
      ensures Outcome(status, Snapshot(bc, next)) == Step(bc.code, old(Snapshot(bc, idx)), env)
      ensures more <==> status == OkRun
    {
      var code := bc.code;
      if idx >= |code| {
        return false, OkStop, idx;
      }
      if code[idx] == PUTMEMBERADDR {
        return true, OkRun, idx + 1;
      }
      var d := Decode(code, idx);
      if d.None? {
        return false, ExecError, idx + 1;
      }
      var (ins, n) := d.value;
      status, next := Dispatch(bc, ins, idx, n, env);
      more := status == OkRun;
    }

    /**
     * `VM::execute`: the static variables get their cells, `Interpret` runs
     * from offset 0 while it returns true (here for at most `fuel`
     * instructions), and the cells are released again.  The outcome is the
     * machine's run from the state with the cells made, and the DATA
     * section is that run's, with the cells released.
     */
    method Execute(bc: Bytecode, env: Env, fuel: nat) returns (status: ExecStatus, pc: nat)
      modifies this, bc
      ensures var o := Run(old(bc.code), State(0, old(stack), old(callstack), Addressed(old(bc.variables))), env, fuel);
        status == o.status && pc == o.state.pc && stack == o.state.stack && callstack == o.state.callstack
        && bc.variables == Disposed(o.state.vars)
      ensures bc.code == old(bc.code) && bc.jumps == old(bc.jumps) && bc.functionRefs == old(bc.functionRefs)
    {
      bc.MakeAddresses();
      assert bc.variables == Addressed(old(bc.variables));
      status, pc := Loop(bc, env, fuel);
      ghost var vs := bc.variables;
      bc.DisposeAddresses();
      assert bc.variables == Disposed(vs);
    }

    /** The `while(interpret(...))` loop of `VM::execute`, from offset 0, for at most `fuel` instructions. */
    method Loop(bc: Bytecode, env: Env, fuel: nat) returns (status: ExecStatus, pc: nat)
      modifies this, bc`variables
      ensures Outcome(status, Snapshot(bc, pc)) == Run(bc.code, old(Snapshot(bc, 0)), env, fuel)
    {
      ghost var code, start := bc.code, Snapshot(bc, 0);
      var more := true;
      var left := fuel;
      status, pc := OkRun, 0;
      while more && left > 0
        invariant bc.code == code
        invariant more ==> status == OkRun
        invariant more ==> Run(code, start, env, fuel) == Run(code, Snapshot(bc, pc), env, left)
        invariant !more ==> Run(code, start, env, fuel) == Outcome(status, Snapshot(bc, pc))
      {
        more, status, pc, left := Advance(bc, env, pc, code, start, fuel, left);
      }
    }

    /** One turn of the loop of `VM::execute`: the run from `start` goes on with the step just taken. */
    method Advance(bc: Bytecode, env: Env, pc: nat, ghost code: seq<byte>, ghost start: State, ghost fuel: nat, left: nat)
      returns (more: bool, status: ExecStatus, next: nat, left': nat)
      requires bc.code == code && left > 0
      requires Run(code, start, env, fuel) == Run(code, Snapshot(bc, pc), env, left)
      modifies this, bc`variables
      ensures bc.code == code
      ensures left' < left
      ensures more ==> status == OkRun && Run(code, start, env, fuel) == Run(code, Snapshot(bc, next), env, left')
      ensures !more ==> Run(code, start, env, fuel) == Outcome(status, Snapshot(bc, next))
    {
      ghost var before := Snapshot(bc, pc);
      more, status, next := Interpret(bc, env, pc);
      left' := left - 1;
      RunAdvances(code, start, fuel, before, env, left, left', more, status, Snapshot(bc, next));
    }
  }
}
