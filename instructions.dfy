/**
 * The instruction set of the ants virtual machine (`EInstrCodes`,
 * bytecode.h) and its byte encoding: one opcode byte followed by the
 * operand bytes.  Indexes into the DATA section and jump targets are 4-byte
 * `unsigned int`s, integer literals 8-byte `long long int`s, float literals
 * the 12 bytes the compiler stores for a `long double`, and strings their
 * bytes followed by one zero byte.  `Encode` is what the `Bytecode` encoders
 * append; `Decode` is how `VM::interpret` reads an instruction back.
 */
module Instructions {
  import opened Encoding

  const NOP: byte := 0
  const DATA: byte := 1
  const PUTADDR: byte := 2
  const PUTINDADDR: byte := 3
  const PUTMEMBERADDR: byte := 4
  const PUTINT: byte := 5
  const PUTFLOAT: byte := 6
  const PUTSTRING: byte := 7
  const PUTBOOLEAN: byte := 8
  const MOVE: byte := 9
  const MOVEADD: byte := 10
  const MOVESUBTR: byte := 11
  const MOVEMUL: byte := 12
  const MOVEDIV: byte := 13
  const EQUAL: byte := 14
  const NOTEQUAL: byte := 15
  const LESSEQUAL: byte := 16
  const GREATEREQUAL: byte := 17
  const LESS: byte := 18
  const GREATER: byte := 19
  const JUMPIFFALSE: byte := 20
  const JUMP: byte := 21
  const MUL: byte := 22
  const DIV: byte := 23
  const ADD: byte := 24
  const SUB: byte := 25
  const NEG: byte := 26
  const END: byte := 27
  const CALL: byte := 28
  const FUN: byte := 29
  const SYSCALL: byte := 30
  const RETURN: byte := 31
  const INITVAR: byte := 32
  const PUTDADDR: byte := 33
  const ALLOCVAR: byte := 34
  const DDATA: byte := 35
  const ALLOCVARS: byte := 36

  /** The memory image of a `long double` literal. */
  type Block12 = b: seq<byte> | |b| == 12 witness [0, 0, 0, 0, 0, 0, 0, 0, 0, 0, 0, 0]

  datatype Instr =
    | Nop | Data | DData | Fun
    | PutAddr(index: u32)
    | PutIndAddr(count: byte)
    | PutMemberAddr(index: u32)
    | PutInt(i: i64)
    | PutFloat(bits: Block12)
    | PutString(s: string)
    | PutBoolean(b: bool)
    | Move | MoveAdd | MoveSubtr | MoveMul | MoveDiv
    | Equal | NotEqual | LessEqual | GreaterEqual | Less | Greater
    | JumpIfFalse(target: u32)
    | Jump(target: u32)
    | Mul | Div | Add | Sub | Neg | End
    | Call(index: u32)
    | Syscall(index: u32, name: string)
    | Return(index: u32)
    | InitVar(index: u32)
    | PutDAddr(index: u32)
    | AllocVar(index: u32)
    | AllocVars(index: u32)
      /** A byte outside the instruction set; the machine skips it. */
    | Unassigned(op: byte)

  function Opcode(ins: Instr): byte
  {
    match ins
    case Nop => NOP
    case Data => DATA
    case DData => DDATA
    case Fun => FUN
    case PutAddr(_) => PUTADDR
    case PutIndAddr(_) => PUTINDADDR
    case PutMemberAddr(_) => PUTMEMBERADDR
    case PutInt(_) => PUTINT
    case PutFloat(_) => PUTFLOAT
    case PutString(_) => PUTSTRING
    case PutBoolean(_) => PUTBOOLEAN
    case Move => MOVE
    case MoveAdd => MOVEADD
    case MoveSubtr => MOVESUBTR
    case MoveMul => MOVEMUL
    case MoveDiv => MOVEDIV
    case Equal => EQUAL
    case NotEqual => NOTEQUAL
    case LessEqual => LESSEQUAL
    case GreaterEqual => GREATEREQUAL
    case Less => LESS
    case Greater => GREATER
    case JumpIfFalse(_) => JUMPIFFALSE
    case Jump(_) => JUMP
    case Mul => MUL
    case Div => DIV
    case Add => ADD
    case Sub => SUB
    case Neg => NEG
    case End => END
    case Call(_) => CALL
    case Syscall(_, _) => SYSCALL
    case Return(_) => RETURN
    case InitVar(_) => INITVAR
    case PutDAddr(_) => PUTDADDR
    case AllocVar(_) => ALLOCVAR
    case AllocVars(_) => ALLOCVARS
    case Unassigned(op) => op
  }

  /** Instructions with one 4-byte operand. */
  predicate HasWord(ins: Instr)
  {
    ins.PutAddr? || ins.PutMemberAddr? || ins.JumpIfFalse? || ins.Jump? || ins.Call?
    || ins.Return? || ins.InitVar? || ins.PutDAddr? || ins.AllocVar? || ins.AllocVars?
  }

  function WordOperand(ins: Instr): u32
    requires HasWord(ins) || ins.Syscall?
  {
    match ins
    case PutAddr(w) => w
    case PutMemberAddr(w) => w
    case JumpIfFalse(w) => w
    case Jump(w) => w
    case Call(w) => w
    case Return(w) => w
    case InitVar(w) => w
    case PutDAddr(w) => w
    case AllocVar(w) => w
    case AllocVars(w) => w
    case Syscall(w, _) => w
  }

  /** Instructions without operands. */
  predicate Nullary(ins: Instr)
  {
    !HasWord(ins) && !ins.PutIndAddr? && !ins.PutInt? && !ins.PutFloat? && !ins.PutString?
    && !ins.PutBoolean? && !ins.Syscall?
  }

  /** The bytes of a C string: everything before the first zero byte, then one zero byte. */
  function CString(s: string): (r: seq<byte>)
    ensures 1 <= |r| <= |s| + 1
  {
    if |s| == 0 || CharByte(s[0]) == 0 then [0] else [CharByte(s[0])] + CString(s[1..])
  }

  /** A string whose characters are all non-zero bytes, so that its C string holds it whole. */
  predicate ByteString(s: string)
  {
    forall k :: 0 <= k < |s| ==> 0 < s[k] as int < 256
  }

  /** A C string ends with its only zero byte. */
  lemma {:induction false} CStringTerminated(s: string)
    ensures CString(s)[|CString(s)| - 1] == 0
    ensures forall k :: 0 <= k < |CString(s)| - 1 ==> CString(s)[k] != 0
  {
    if |s| > 0 && CharByte(s[0]) != 0 {
      CStringTerminated(s[1..]);
      var t := CString(s[1..]);
      assert CString(s) == [CharByte(s[0])] + t;
      forall k | 1 <= k < |CString(s)| - 1 ensures CString(s)[k] != 0 {
        assert CString(s)[k] == t[k - 1];
      }
    }
  }

  lemma {:induction false} CStringLength(s: string)
    requires ByteString(s)
    ensures |CString(s)| == |s| + 1
  {
    if |s| > 0 {
      assert ByteString(s[1..]) by {
        forall k | 0 <= k < |s[1..]| ensures 0 < s[1..][k] as int < 256 { assert s[1..][k] == s[k + 1]; }
      }
      CStringLength(s[1..]);
    }
  }

  /**
   * The bytes an encoder appends for an instruction: the opcode, then the
   * operands in machine byte order; PUTSTRING and SYSCALL end with exactly
   * one zero byte.
   */
  function Encode(ins: Instr): (r: seq<byte>)
    ensures |r| >= 1 && r[0] == Opcode(ins)
  {
    [Opcode(ins)] + Operands(ins)
  }

  /** The operand bytes that follow the opcode. */
  function Operands(ins: Instr): seq<byte>
  {
    match ins
    case PutIndAddr(n) => [n]
    case PutInt(i) => Int64Bytes(i)
    case PutFloat(bits) => bits
    case PutString(s) => CString(s)
    case PutBoolean(b) => [if b then 1 else 0]
    case Syscall(w, name) => Word(w) + CString(name)
    case _ => if HasWord(ins) then Word(WordOperand(ins)) else []
  }

  /**
   * How much each encoder appends: one byte without operands, five with a
   * 4-byte operand, two for PUTINDADDR and PUTBOOLEAN, nine for PUTINT,
   * thirteen for PUTFLOAT; PUTSTRING and SYSCALL end their operand with
   * exactly one zero byte.
   */
  lemma EncodeLength(ins: Instr)
    ensures Nullary(ins) ==> |Encode(ins)| == 1
    ensures HasWord(ins) ==> |Encode(ins)| == 5
    ensures ins.PutIndAddr? || ins.PutBoolean? ==> |Encode(ins)| == 2
    ensures ins.PutInt? ==> |Encode(ins)| == 9
    ensures ins.PutFloat? ==> |Encode(ins)| == 13
    ensures ins.PutString? ==> Encode(ins) == [PUTSTRING] + CString(ins.s)
    ensures ins.Syscall? ==> Encode(ins) == [SYSCALL] + (Word(ins.index) + CString(ins.name))
  {
  }

  /** The C string that starts at `pos`, and the offset after its zero byte; `None` when no zero byte follows. */
  function ReadCString(code: seq<byte>, pos: nat): (r: Option<(string, nat)>)
    requires pos <= |code|
    decreases |code| - pos
    ensures r.Some? ==> pos < r.value.1 <= |code|
  {
    if pos == |code| then None
    else if code[pos] == 0 then Some(([], pos + 1))
    else
      match ReadCString(code, pos + 1)
      case None => None
      case Some((t, e)) => Some(([ByteChar(code[pos])] + t, e))
  }

  function WordInstr(op: byte, w: u32): Instr
  {
    if op == PUTADDR then PutAddr(w)
    else if op == PUTMEMBERADDR then PutMemberAddr(w)
    else if op == JUMPIFFALSE then JumpIfFalse(w)
    else if op == JUMP then Jump(w)
    else if op == CALL then Call(w)
    else if op == RETURN then Return(w)
    else if op == INITVAR then InitVar(w)
    else if op == PUTDADDR then PutDAddr(w)
    else if op == ALLOCVAR then AllocVar(w)
    else AllocVars(w)
  }

  predicate IsWordOp(op: byte)
  {
    op in {PUTADDR, PUTMEMBERADDR, JUMPIFFALSE, JUMP, CALL, RETURN, INITVAR, PUTDADDR, ALLOCVAR, ALLOCVARS}
  }

  function NullaryInstr(op: byte): Instr
  {
    if op == NOP then Nop
    else if op == DATA then Data
    else if op == DDATA then DData
    else if op == FUN then Fun
    else if op == MOVE then Move
    else if op == MOVEADD then MoveAdd
    else if op == MOVESUBTR then MoveSubtr
    else if op == MOVEMUL then MoveMul
    else if op == MOVEDIV then MoveDiv
    else if op == EQUAL then Equal
    else if op == NOTEQUAL then NotEqual
    else if op == LESSEQUAL then LessEqual
    else if op == GREATEREQUAL then GreaterEqual
    else if op == LESS then Less
    else if op == GREATER then Greater
    else if op == MUL then Mul
    else if op == DIV then Div
    else if op == ADD then Add
    else if op == SUB then Sub
    else if op == NEG then Neg
    else if op == END then End
    else Unassigned(op)
  }

  /**
   * The instruction at `pc` as `interpret` reads it, and the offset of the
   * next one; `None` when the operands run past the end of the code.
   */
  function Decode(code: seq<byte>, pc: nat): (r: Option<(Instr, nat)>)
    requires pc < |code|
    ensures r.Some? ==> pc < r.value.1 <= |code|
  {
    var op := code[pc];
    var next := pc + 1;
    if op == PUTINDADDR then
      if next + 1 <= |code| then Some((PutIndAddr(code[next]), next + 1)) else None
    else if op == PUTBOOLEAN then
      if next + 1 <= |code| then Some((PutBoolean(code[next] == 1), next + 1)) else None
    else if op == PUTINT then
      if next + 8 <= |code| then Some((PutInt(ReadInt64(code[next..])), next + 8)) else None
    else if op == PUTFLOAT then
      if next + 12 <= |code| then Some((PutFloat(code[next..next + 12]), next + 12)) else None
    else if op == PUTSTRING then
      match ReadCString(code, next)
      case None => None
      case Some((s, e)) => Some((PutString(s), e))
    else if op == SYSCALL then
      if next + 4 <= |code| then
        match ReadCString(code, next + 4)
        case None => None
        case Some((s, e)) => Some((Syscall(ReadWord(code[next..]), s), e))
      else None
    else if IsWordOp(op) then
      if next + 4 <= |code| then Some((WordInstr(op, ReadWord(code[next..])), next + 4)) else None
    else Some((NullaryInstr(op), next))
  }

  /** An instruction that decodes back to itself. */
  predicate Encodable(ins: Instr)
  {
    match ins
    case PutString(s) => ByteString(s)
    case Syscall(_, name) => ByteString(name)
    case Unassigned(op) => op > ALLOCVARS
    case _ => true
  }

  /** The bytes of `pre + e + post` from |pre| + a to |pre| + b are those of `e` from `a` to `b`. */
  lemma Embedded(pre: seq<byte>, e: seq<byte>, post: seq<byte>, a: nat, b: nat)
    requires a <= b <= |e|
    ensures (pre + e + post)[|pre| + a..|pre| + b] == e[a..b]
  {
    var code := pre + e + post;
    assert forall i :: |pre| + a <= i < |pre| + b ==> code[i] == e[i - |pre|];
  }

  lemma {:induction false} ReadCStringAt(code: seq<byte>, pos: nat, s: string)
    requires ByteString(s) && pos + |s| + 1 <= |code|
    requires code[pos..pos + |s| + 1] == CString(s)
    ensures ReadCString(code, pos) == Some((s, pos + |s| + 1))
    decreases |s|
  {
    if |s| == 0 {
      assert code[pos] == code[pos..pos + 1][0];
    } else {
      var b := CharByte(s[0]);
      assert ByteString(s[1..]) by {
        forall k | 0 <= k < |s[1..]| ensures 0 < s[1..][k] as int < 256 { assert s[1..][k] == s[k + 1]; }
      }
      assert CString(s) == [b] + CString(s[1..]);
      assert code[pos] == code[pos..pos + |s| + 1][0] == b;
      assert code[pos + 1..pos + 1 + |s[1..]| + 1] == code[pos..pos + |s| + 1][1..];
      ReadCStringAt(code, pos + 1, s[1..]);
      assert ByteChar(b) == s[0];
      assert [s[0]] + s[1..] == s;
    }
  }

  lemma ReadWordAt(code: seq<byte>, pos: nat, w: u32)
    requires pos + 4 <= |code| && code[pos..pos + 4] == Word(w)
    ensures ReadWord(code[pos..]) == w
  {
    assert code[pos..][..4] == code[pos..pos + 4];
    WordRoundTrip(w);
    assert Word(w)[..4] == Word(w);
  }

  lemma ReadInt64At(code: seq<byte>, pos: nat, i: i64)
    requires pos + 8 <= |code| && code[pos..pos + 8] == Int64Bytes(i)
    ensures ReadInt64(code[pos..]) == i
  {
    assert code[pos..][..8] == code[pos..pos + 8];
    Int64RoundTrip(i);
    assert Int64Bytes(i)[..8] == Int64Bytes(i);
  }

  lemma NullaryOpcode(ins: Instr)
    requires Nullary(ins) && Encodable(ins)
    ensures NullaryInstr(Opcode(ins)) == ins && !IsWordOp(Opcode(ins))
    ensures Opcode(ins) !in {PUTINDADDR, PUTBOOLEAN, PUTINT, PUTFLOAT, PUTSTRING, SYSCALL}
  {
  }

  lemma WordOpcode(ins: Instr)
    requires HasWord(ins)
    ensures WordInstr(Opcode(ins), WordOperand(ins)) == ins && IsWordOp(Opcode(ins))
    ensures Opcode(ins) !in {PUTINDADDR, PUTBOOLEAN, PUTINT, PUTFLOAT, PUTSTRING, SYSCALL}
  {
  }

  /** An encoded instruction found at `p` in `code`: its bytes are those from `p` on. */
  predicate EncodedAt(code: seq<byte>, p: nat, ins: Instr)
  {
    p + |Encode(ins)| <= |code| && code[p..p + |Encode(ins)|] == Encode(ins)
  }

  lemma DecodeWordAt(code: seq<byte>, p: nat, ins: Instr)
    requires HasWord(ins) && EncodedAt(code, p, ins)
    ensures Decode(code, p) == Some((ins, p + 5))
  {
    var e := Encode(ins);
    WordOpcode(ins);
    assert e == [Opcode(ins)] + Word(WordOperand(ins));
    assert code[p] == e[0];
    assert code[p + 1..p + 5] == e[1..5] == Word(WordOperand(ins));
    ReadWordAt(code, p + 1, WordOperand(ins));
  }

  lemma DecodeNullaryAt(code: seq<byte>, p: nat, ins: Instr)
    requires Nullary(ins) && Encodable(ins) && EncodedAt(code, p, ins)
    ensures Decode(code, p) == Some((ins, p + 1))
  {
    NullaryOpcode(ins);
    assert Encode(ins) == [Opcode(ins)];
    assert code[p] == Encode(ins)[0];
  }

  lemma SubSlice(code: seq<byte>, p: nat, n: nat, a: nat, b: nat)
    requires p + n <= |code| && a <= b <= n
    ensures code[p..p + n][a..b] == code[p + a..p + b]
  {
    var x := code[p..p + n][a..b];
    assert forall i :: 0 <= i < |x| ==> x[i] == code[p + a + i];
  }

  /** Decoding PUTSTRING from its parts: the opcode, then a terminated string. */
  lemma DecodeStringFrom(code: seq<byte>, p: nat, s: string, e: nat)
    requires p < |code| && code[p] == PUTSTRING
    requires ReadCString(code, p + 1) == Some((s, e))
    ensures Decode(code, p) == Some((PutString(s), e))
  {
  }

  /** Decoding SYSCALL from its parts: the opcode, the word, then a terminated name. */
  lemma DecodeSyscallFrom(code: seq<byte>, p: nat, w: u32, name: string, e: nat)
    requires p + 5 <= |code| && code[p] == SYSCALL && ReadWord(code[p + 1..]) == w
    requires ReadCString(code, p + 5) == Some((name, e))
    ensures Decode(code, p) == Some((Syscall(w, name), e))
  {
  }

  /** An opcode followed by its operand bytes, found at `p`. */
  lemma HeadTail(code: seq<byte>, p: nat, op: byte, c: seq<byte>)
    requires p + 1 + |c| <= |code| && code[p..p + 1 + |c|] == [op] + c
    ensures code[p] == op && code[p + 1..p + 1 + |c|] == c
  {
    var t, u := code[p..p + 1 + |c|], code[p + 1..p + 1 + |c|];
    assert code[p] == t[0];
    assert forall i :: 0 <= i < |c| ==> u[i] == t[i + 1];
  }

  /** Where the parts of an encoded PUTSTRING lie. */
  lemma StringPartsAt(code: seq<byte>, p: nat, s: string)
    requires ByteString(s) && EncodedAt(code, p, PutString(s))
    ensures p + |s| + 2 <= |code| && code[p] == PUTSTRING && code[p + 1..p + 1 + |s| + 1] == CString(s)
  {
    EncodeLength(PutString(s));
    CStringLength(s);
    var c := CString(s);
    var e := Encode(PutString(s));
    assert e == [PUTSTRING] + c;
    assert p + |e| == p + 1 + |c|;
    HeadTail(code, p, PUTSTRING, c);
    assert p + 1 + |c| == p + 1 + |s| + 1;
  }

  lemma SliceMoved(code: seq<byte>, a: nat, b: nat, a': nat, b': nat, y: seq<byte>)
    requires a == a' && b == b' && a <= b <= |code| && code[a..b] == y
    ensures code[a'..b'] == y
  {
  }

  /** Two pieces found one after the other at `q`. */
  lemma PiecesAt(code: seq<byte>, q: nat, x: seq<byte>, y: seq<byte>)
    requires q + |x| + |y| <= |code| && code[q..q + |x| + |y|] == x + y
    ensures code[q..q + |x|] == x && code[q + |x|..q + |x| + |y|] == y
  {
    var t, u, v := code[q..q + |x| + |y|], code[q..q + |x|], code[q + |x|..q + |x| + |y|];
    assert forall i :: 0 <= i < |x| ==> u[i] == t[i];
    assert forall i :: 0 <= i < |y| ==> v[i] == t[|x| + i];
  }

  /** Where the parts of an encoded SYSCALL lie. */
  /** The operand bytes of an encoded SYSCALL: what follows its opcode. */
  lemma SyscallOperandsAt(code: seq<byte>, p: nat, w: u32, name: string)
    requires ByteString(name) && EncodedAt(code, p, Syscall(w, name))
    ensures code[p] == SYSCALL && p + 1 + |Word(w) + CString(name)| <= |code|
    ensures code[p + 1..p + 1 + |Word(w) + CString(name)|] == Word(w) + CString(name)
  {
    var c := Word(w) + CString(name);
    EncodeLength(Syscall(w, name));
    var e := Encode(Syscall(w, name));
    assert e == [SYSCALL] + c;
    assert p + |e| == p + 1 + |c|;
    HeadTail(code, p, SYSCALL, c);
  }

  /** Where the word and the name of an encoded SYSCALL lie. */
  lemma SyscallPartsAt(code: seq<byte>, p: nat, w: u32, name: string)
    requires ByteString(name) && p + 1 + |Word(w) + CString(name)| <= |code|
    requires code[p + 1..p + 1 + |Word(w) + CString(name)|] == Word(w) + CString(name)
    ensures p + |name| + 6 <= |code|
    ensures code[p + 1..p + 5] == Word(w) && code[p + 5..p + |name| + 6] == CString(name)
  {
    var x, y := Word(w), CString(name);
    CStringLength(name);
    assert p + 1 + |x + y| == p + 1 + |x| + |y|;
    PiecesAt(code, p + 1, x, y);
    SliceMoved(code, p + 1, p + 1 + |x|, p + 1, p + 5, x);
    SliceMoved(code, p + 1 + |x|, p + 1 + |x| + |y|, p + 5, p + |name| + 6, y);
  }

  lemma DecodeStringAt(code: seq<byte>, p: nat, s: string)
    requires ByteString(s) && EncodedAt(code, p, PutString(s))
    ensures Decode(code, p) == Some((PutString(s), p + |s| + 2))
  {
    StringPartsAt(code, p, s);
    ReadCStringAt(code, p + 1, s);
    DecodeStringFrom(code, p, s, p + 1 + |s| + 1);
    var r := Decode(code, p);
    assert r.Some? && r.value.0 == PutString(s) && r.value.1 == p + |s| + 2;
    assert r == Some((r.value.0, r.value.1));
  }

  lemma DecodeSyscallAt(code: seq<byte>, p: nat, w: u32, name: string)
    requires ByteString(name) && EncodedAt(code, p, Syscall(w, name))
    ensures Decode(code, p) == Some((Syscall(w, name), p + |name| + 6))
  {
    SyscallOperandsAt(code, p, w, name);
    SyscallPartsAt(code, p, w, name);
    ReadWordAt(code, p + 1, w);
    ReadCStringAt(code, p + 5, name);
    DecodeSyscallFrom(code, p, w, name, p + 5 + |name| + 1);
    var r := Decode(code, p);
    assert r.Some? && r.value.0 == Syscall(w, name) && r.value.1 == p + |name| + 6;
    assert r == Some((r.value.0, r.value.1));
  }

  lemma DecodeLiteralAt(code: seq<byte>, p: nat, ins: Instr)
    requires ins.PutIndAddr? || ins.PutBoolean? || ins.PutInt? || ins.PutFloat?
    requires EncodedAt(code, p, ins)
    ensures Decode(code, p) == Some((ins, p + |Encode(ins)|))
  {
    var e := Encode(ins);
    assert code[p] == e[0] == Opcode(ins);
    match ins
    case PutInt(i) =>
      assert e == [PUTINT] + Int64Bytes(i);
      assert code[p + 1..p + 9] == e[1..] == Int64Bytes(i);
      ReadInt64At(code, p + 1, i);
    case PutFloat(bits) =>
      assert e == [PUTFLOAT] + bits;
      assert code[p + 1..p + 13] == e[1..] == bits;
    case PutIndAddr(n) =>
      assert e == [PUTINDADDR, n];
      assert code[p + 1] == e[1];
    case PutBoolean(b) =>
      assert e == [PUTBOOLEAN, if b then 1 else 0];
      assert code[p + 1] == e[1];
  }

  /** An encodable instruction found at `p` decodes back to itself and the offset just past it. */
  lemma DecodeAt(code: seq<byte>, p: nat, ins: Instr)
    requires Encodable(ins) && EncodedAt(code, p, ins)
    ensures Decode(code, p) == Some((ins, p + |Encode(ins)|))
  {
    if ins.PutString? {
      CStringLength(ins.s);
      DecodeStringAt(code, p, ins.s);
    } else if ins.Syscall? {
      CStringLength(ins.name);
      DecodeSyscallAt(code, p, ins.index, ins.name);
    } else if HasWord(ins) {
      DecodeWordAt(code, p, ins);
      assert |Encode(ins)| == 5;
    } else if Nullary(ins) {
      DecodeNullaryAt(code, p, ins);
      assert |Encode(ins)| == 1;
    } else {
      DecodeLiteralAt(code, p, ins);
    }
  }

  /** Decoding an encoded instruction gives it back, together with the offset just past it. */
  lemma DecodeEncode(pre: seq<byte>, ins: Instr, post: seq<byte>)
    requires Encodable(ins)
    ensures Decode(pre + Encode(ins) + post, |pre|) == Some((ins, |pre| + |Encode(ins)|))
  {
    Embedded(pre, Encode(ins), post, 0, |Encode(ins)|);
    assert Encode(ins)[0..|Encode(ins)|] == Encode(ins);
    DecodeAt(pre + Encode(ins) + post, |pre|, ins);
  }

  /** Whatever `interpret` decodes at an offset has the opcode of the byte found there. */
  lemma DecodeOpcode(code: seq<byte>, pc: nat)
    requires pc < |code| && Decode(code, pc).Some?
    ensures Opcode(Decode(code, pc).value.0) == code[pc]
  {
    var op := code[pc];
    if IsWordOp(op) && op != PUTADDR && op != PUTMEMBERADDR && op != JUMPIFFALSE {
      assert Opcode(WordInstr(op, ReadWord(code[pc + 1..]))) == op;
    } else if !IsWordOp(op) && op !in {PUTINDADDR, PUTBOOLEAN, PUTINT, PUTFLOAT, PUTSTRING, SYSCALL} {
      NullaryInstrOpcode(op);
    }
  }

  lemma NullaryInstrOpcode(op: byte)
    requires !IsWordOp(op) && op !in {PUTINDADDR, PUTBOOLEAN, PUTINT, PUTFLOAT, PUTSTRING, SYSCALL}
    ensures Opcode(NullaryInstr(op)) == op
  {
  }
}
