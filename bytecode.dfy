/**
 * The compiled program under construction (class `Bytecode`, bytecode.h):
 * the DATA section of variable and function entries, the code buffer the
 * encoders append to, and two fix-up lists, the offsets of 4-byte jump
 * operands and the (function entry, code offset) pairs, that let one buffer
 * be appended to another and every code offset inside it be relocated.
 */
module Assembler {
  import opened Encoding
  import opened Arrays
  import opened Datatypes
  import opened Instructions

  /** `FunctionRef`: DATA index of a function entry and the code offset of its body. */
  datatype FunctionRef = FunctionRef(variableIndex: u32, functionPos: nat)

  /** The 4-byte word stored at offset `pos`. */
  function WordAt(code: seq<byte>, pos: nat): u32
    requires pos + 4 <= |code|
  {
    ReadWord(code[pos..pos + 4])
  }

  /** `setAddress`: `code` with the four bytes at `pos` replaced by `val`. */
  function SetWord(code: seq<byte>, pos: nat, val: u32): (r: seq<byte>)
    requires pos + 4 <= |code|
    ensures |r| == |code|
    ensures r[pos..pos + 4] == Word(val)
  {
    var w := Word(val);
    var r := seq(|code|, k requires 0 <= k < |code| => if pos <= k < pos + 4 then w[k - pos] else code[k]);
    assert r[pos..pos + 4] == w;
    r
  }

  /** After `setAddress(pos, val)` the word at `pos` reads back as `val`. */
  lemma SetWordReadsBack(code: seq<byte>, pos: nat, val: u32)
    requires pos + 4 <= |code|
    ensures WordAt(SetWord(code, pos, val), pos) == val
  {
    WordRoundTrip(val);
    assert Word(val)[..4] == Word(val);
  }

  /** Every jump fix-up names a whole word inside the code. */
  predicate InRange(code: seq<byte>, jumps: seq<nat>)
  {
    forall k :: 0 <= k < |jumps| ==> jumps[k] + 4 <= |code|
  }

  /** No two jump fix-ups share a byte. */
  predicate Disjoint(jumps: seq<nat>)
  {
    forall a, b :: 0 <= a < |jumps| && 0 <= b < |jumps| && a != b ==> jumps[a] + 4 <= jumps[b] || jumps[b] + 4 <= jumps[a]
  }

  /** The byte at `p` lies in no fix-up word. */
  predicate Uncovered(jumps: seq<nat>, p: nat)
  {
    forall k :: 0 <= k < |jumps| ==> !(jumps[k] <= p < jumps[k] + 4)
  }

  /**
   * The body of the relocation loop of `operator+=`: each fix-up word in
   * turn is read, increased by `d` in `unsigned int` arithmetic and
   * written back.
   */
  function Relocated(code: seq<byte>, jumps: seq<nat>, d: nat): (r: seq<byte>)
    requires InRange(code, jumps)
    ensures |r| == |code|
    decreases |jumps|
  {
    if |jumps| == 0 then code
    else
      var before := Relocated(code, jumps[..|jumps| - 1], d);
      var j := jumps[|jumps| - 1];
      SetWord(before, j, U32(WordAt(before, j) + d))
  }

  function Shifted(jumps: seq<nat>, d: nat): (r: seq<nat>)
    ensures |r| == |jumps|
  {
    seq(|jumps|, k requires 0 <= k < |jumps| => jumps[k] + d)
  }

  function ShiftedRefs(refs: seq<FunctionRef>, d: nat): (r: seq<FunctionRef>)
    ensures |r| == |refs|
  {
    seq(|refs|, k requires 0 <= k < |refs| => refs[k].(functionPos := refs[k].functionPos + d))
  }

  /** The words at `p` and `q` share no byte. */
  predicate Apart(p: nat, q: nat)
  {
    p + 4 <= q || q + 4 <= p
  }

  /** One more turn of the relocation loop relocates one more fix-up. */
  lemma RelocatedStep(code: seq<byte>, jumps: seq<nat>, d: nat, i: nat)
    requires InRange(code, jumps) && i < |jumps|
    ensures InRange(code, jumps[..i]) && InRange(code, jumps[..i + 1])
    ensures Shifted(jumps[..i + 1], d) == Shifted(jumps[..i], d) + [jumps[i] + d]
    ensures Relocated(code, jumps[..i + 1], d) ==
      var before := Relocated(code, jumps[..i], d);
      SetWord(before, jumps[i], U32(WordAt(before, jumps[i]) + d))
  {
    var js := jumps[..i + 1];
    assert js[..i] == jumps[..i];
    assert js[i] == jumps[i];
  }

  /** `setAddress` overwrites the four bytes at `pos` and no other byte. */
  lemma SetWordOnlyThere(code: seq<byte>, pos: nat, val: u32)
    requires pos + 4 <= |code|
    ensures forall k :: 0 <= k < |code| && !(pos <= k < pos + 4) ==> SetWord(code, pos, val)[k] == code[k]
  {
  }

  /** Writing one word leaves a word that does not overlap it as it was. */
  lemma SetWordElsewhere(code: seq<byte>, pos: nat, val: u32, q: nat)
    requires pos + 4 <= |code| && q + 4 <= |code| && Apart(pos, q)
    ensures SetWord(code, pos, val)[q..q + 4] == code[q..q + 4]
  {
    SetWordOnlyThere(code, pos, val);
    var r := SetWord(code, pos, val);
    assert forall i :: q <= i < q + 4 ==> r[i] == code[i];
  }

  /** Relocation only writes inside fix-up words: a word apart from all of them keeps its bytes. */
  lemma {:induction false} RelocatedKeepsWord(code: seq<byte>, jumps: seq<nat>, d: nat, q: nat)
    requires InRange(code, jumps) && q + 4 <= |code|
    requires forall k :: 0 <= k < |jumps| ==> Apart(jumps[k], q)
    ensures Relocated(code, jumps, d)[q..q + 4] == code[q..q + 4]
    decreases |jumps|
  {
    if |jumps| > 0 {
      var n := |jumps| - 1;
      var init := jumps[..n];
      assert InRange(code, init);
      assert forall k :: 0 <= k < |init| ==> init[k] == jumps[k];
      RelocatedKeepsWord(code, init, d, q);
      var before := Relocated(code, init, d);
      SetWordElsewhere(before, jumps[n], U32(WordAt(before, jumps[n]) + d), q);
    }
  }

  /** Relocation only writes inside fix-up words. */
  lemma {:induction false} RelocatedKeepsUncovered(code: seq<byte>, jumps: seq<nat>, d: nat, p: nat)
    requires InRange(code, jumps) && p < |code| && Uncovered(jumps, p)
    ensures Relocated(code, jumps, d)[p] == code[p]
    decreases |jumps|
  {
    if |jumps| > 0 {
      var n := |jumps| - 1;
      var init := jumps[..n];
      assert InRange(code, init);
      assert Uncovered(init, p) by {
        forall k | 0 <= k < |init| ensures !(init[k] <= p < init[k] + 4) {
          assert init[k] == jumps[k];
        }
      }
      RelocatedKeepsUncovered(code, init, d, p);
      var before := Relocated(code, init, d);
      assert !(jumps[n] <= p < jumps[n] + 4);
      SetWordOnlyThere(before, jumps[n], U32(WordAt(before, jumps[n]) + d));
    }
  }

  /** The last fix-up's word is the old word plus `d`: no earlier fix-up touched it. */
  lemma RelocatedLastWord(code: seq<byte>, jumps: seq<nat>, d: nat)
    requires |jumps| > 0 && InRange(code, jumps) && Disjoint(jumps)
    ensures var j := jumps[|jumps| - 1];
      Relocated(code, jumps, d)[j..j + 4] == Word(U32(WordAt(code, j) + d))
  {
    var n := |jumps| - 1;
    var init := jumps[..n];
    var j := jumps[n];
    FixupsPrefix(code, jumps, n);
    forall k | 0 <= k < |init| ensures Apart(init[k], j) {
      assert init[k] == jumps[k] && k != n;
    }
    RelocatedKeepsWord(code, init, d, j);
  }

  /** A prefix of well-placed fix-ups is well placed. */
  lemma FixupsPrefix(code: seq<byte>, jumps: seq<nat>, n: nat)
    requires InRange(code, jumps) && Disjoint(jumps) && n <= |jumps|
    ensures InRange(code, jumps[..n]) && Disjoint(jumps[..n])
  {
    assert forall i :: 0 <= i < n ==> jumps[..n][i] == jumps[i];
  }

  /** An earlier fix-up's word is not disturbed by relocating the last one. */
  lemma RelocatedEarlierWord(code: seq<byte>, jumps: seq<nat>, d: nat, k: nat)
    requires |jumps| > 0 && InRange(code, jumps) && Disjoint(jumps) && k < |jumps| - 1
    ensures InRange(code, jumps[..|jumps| - 1])
    ensures Relocated(code, jumps, d)[jumps[k]..jumps[k] + 4] ==
      Relocated(code, jumps[..|jumps| - 1], d)[jumps[k]..jumps[k] + 4]
  {
    var n := |jumps| - 1;
    var init := jumps[..n];
    FixupsPrefix(code, jumps, n);
    var before := Relocated(code, init, d);
    assert Apart(jumps[n], jumps[k]);
    SetWordElsewhere(before, jumps[n], U32(WordAt(before, jumps[n]) + d), jumps[k]);
  }

  /**
   * When the fix-ups do not overlap, relocation adds `d` (modulo 2^32) to
   * the word at every fix-up.
   */
  lemma {:induction false} RelocatedWordAt(code: seq<byte>, jumps: seq<nat>, d: nat, k: nat)
    requires InRange(code, jumps) && Disjoint(jumps) && k < |jumps|
    ensures Relocated(code, jumps, d)[jumps[k]..jumps[k] + 4] == Word(U32(WordAt(code, jumps[k]) + d))
    decreases |jumps|
  {
    var n := |jumps| - 1;
    if k == n {
      RelocatedLastWord(code, jumps, d);
    } else {
      var init := jumps[..n];
      FixupsPrefix(code, jumps, n);
      var jk := jumps[k];
      assert init[k] == jk;
      RelocatedWordAt(code, init, d, k);
      RelocatedEarlierWord(code, jumps, d, k);
    }
  }

  /**
   * The fix-ups of `A += B` stay well placed: A's old ones and B's shifted
   * ones each name a word of the new code, and none of them overlap.
   */
  lemma AppendKeepsFixups(code: seq<byte>, jumps: seq<nat>, other: seq<byte>, otherJumps: seq<nat>)
    requires InRange(code, jumps) && Disjoint(jumps)
    requires InRange(other, otherJumps) && Disjoint(otherJumps)
    ensures InRange(code + Relocated(other, otherJumps, |code|), jumps + Shifted(otherJumps, |code|))
    ensures Disjoint(jumps + Shifted(otherJumps, |code|))
  {
    var js := jumps + Shifted(otherJumps, |code|);
    forall a, b | 0 <= a < |js| && 0 <= b < |js| && a != b
      ensures js[a] + 4 <= js[b] || js[b] + 4 <= js[a]
    {
      if a >= |jumps| && b >= |jumps| {
        assert js[a] == otherJumps[a - |jumps|] + |code|;
        assert js[b] == otherJumps[b - |jumps|] + |code|;
      } else if a >= |jumps| {
        assert js[b] == jumps[b];
      } else if b >= |jumps| {
        assert js[a] == jumps[a];
      }
    }
  }

  /**
   * The relocation property of `A += B`, for A's code `code` of length `d`:
   * at B's fix-up `j` the new code holds B's old word plus `d` (modulo
   * 2^32), found at offset `d + j`.
   */
  lemma AppendRelocatesWord(code: seq<byte>, d: nat, other: seq<byte>, otherJumps: seq<nat>, k: nat)
    requires d == |code|
    requires InRange(other, otherJumps) && Disjoint(otherJumps) && k < |otherJumps|
    ensures (code + Relocated(other, otherJumps, d))[d + otherJumps[k]..d + otherJumps[k] + 4]
      == Word(U32(WordAt(other, otherJumps[k]) + d))
  {
    RelocatedWordAt(other, otherJumps, d, k);
    var j := otherJumps[k];
    var r := Relocated(other, otherJumps, d);
    var w := Word(U32(WordAt(other, j) + d));
    assert j + 4 <= |r| && r[j..j + 4] == w;
    SliceAfter(code, r, j, w);
  }

  /**
   * Every other byte of `A += B`: A's own bytes are untouched, and past
   * `d` = |A| a byte in no fix-up word of B is B's byte.
   */
  lemma AppendKeepsBytes(code: seq<byte>, d: nat, other: seq<byte>, otherJumps: seq<nat>, p: nat)
    requires d == |code|
    requires InRange(other, otherJumps) && p < |other| && Uncovered(otherJumps, p)
    ensures (code + Relocated(other, otherJumps, d))[d + p] == other[p]
    ensures (code + Relocated(other, otherJumps, d))[..d] == code
  {
    RelocatedKeepsUncovered(other, otherJumps, d, p);
    var r := Relocated(other, otherJumps, d);
    assert (code + r)[d + p] == r[p];
    assert (code + r)[..d] == code;
  }

  lemma SliceAfter(a: seq<byte>, b: seq<byte>, j: nat, w: seq<byte>)
    requires j + 4 <= |b| && b[j..j + 4] == w
    ensures (a + b)[|a| + j..|a| + j + 4] == w
  {
    assert (a + b)[|a| + j..|a| + j + 4] == b[j..j + 4];
  }

  class Bytecode {
    var variables: seq<DataEntry>
    var code: seq<byte>
    var jumps: seq<nat>
    var functionRefs: seq<FunctionRef>

    /** The fix-up lists describe this code: every jump word lies inside it, and no two overlap. */
    predicate Valid()
      reads this
    {
      InRange(code, jumps) && Disjoint(jumps)
    }

    constructor ()
      ensures variables == [] && code == [] && jumps == [] && functionRefs == []
      ensures Valid()
    {
      variables, code, jumps, functionRefs := [], [], [], [];
    }

    method Clear()
      modifies this
      ensures variables == [] && code == [] && jumps == [] && functionRefs == []
      ensures Valid()
    {
      variables, code, jumps, functionRefs := [], [], [], [];
    }

    /**
     * Every fixed-shape encoder (`NOP`, `PUTADDR` … `RETURN` except
     * `PUTSTRING` and `SYSCALL`): the opcode and its operand bytes are
     * appended, and the offset of the opcode is returned.
     */
    method Emit(ins: Instr) returns (pos: nat)
      requires !ins.PutString? && !ins.Syscall?
      modifies this
      ensures pos == |old(code)|
      ensures code == old(code) + Encode(ins)
      ensures code[pos] == Opcode(ins)
      ensures variables == old(variables) && jumps == old(jumps) && functionRefs == old(functionRefs)
      ensures old(Valid()) ==> Valid()
    {
      pos := |code|;
      code := code + Encode(ins);
    }

    /** The `do … while` loop of `PUTSTRING` and `SYSCALL`: the characters up to and including the terminating zero. */
    static method CStringBytes(s: string) returns (bytes: seq<byte>)
      ensures bytes == CString(s)
    {
      bytes := [];
      var i := 0;
      while i < |s| && CharByte(s[i]) != 0
        invariant 0 <= i <= |s|
        invariant bytes + CString(s[i..]) == CString(s)
      {
        assert s[i..][1..] == s[i + 1..];
        bytes := bytes + [CharByte(s[i])];
        i := i + 1;
      }
      bytes := bytes + [0];
    }

    method EmitString(s: string) returns (pos: nat)
      modifies this
      ensures pos == |old(code)|
      ensures code == old(code) + Encode(PutString(s))
      ensures variables == old(variables) && jumps == old(jumps) && functionRefs == old(functionRefs)
      ensures old(Valid()) ==> Valid()
    {
      pos := |code|;
      var bytes := CStringBytes(s);
      assert Encode(PutString(s)) == [PUTSTRING] + bytes;
      code := code + ([PUTSTRING] + bytes);
    }

    method EmitSyscall(varIdx: u32, name: string) returns (pos: nat)
      modifies this
      ensures pos == |old(code)|
      ensures code == old(code) + Encode(Syscall(varIdx, name))
      ensures variables == old(variables) && jumps == old(jumps) && functionRefs == old(functionRefs)
      ensures old(Valid()) ==> Valid()
    {
      pos := |code|;
      var bytes := CStringBytes(name);
      assert Encode(Syscall(varIdx, name)) == [SYSCALL] + (Word(varIdx) + bytes);
      code := code + ([SYSCALL] + (Word(varIdx) + bytes));
    }

    /** `DATA`: a static variable entry; the code is not touched. */
    method Data(name: string, scope: string, typeString: string) returns (idx: nat)
      modifies this
      ensures idx == |old(variables)|
      ensures variables == old(variables) + [NewEntry(name, scope, typeString, Variable)]
      ensures code == old(code) && jumps == old(jumps) && functionRefs == old(functionRefs)
    {
      variables := variables + [NewEntry(name, scope, typeString, Variable)];
      idx := |variables| - 1;
    }

    /** `DDATA`: a dynamic variable entry with its instance index. */
    method DData(name: string, scope: string, pos: u32, typeString: string) returns (idx: nat)
      modifies this
      ensures idx == |old(variables)|
      ensures variables == old(variables) + [NewDynamicEntry(name, scope, typeString, pos, DynamicVariable)]
      ensures code == old(code) && jumps == old(jumps) && functionRefs == old(functionRefs)
    {
      variables := variables + [NewDynamicEntry(name, scope, typeString, pos, DynamicVariable)];
      idx := |variables| - 1;
    }

    /** `FUN`: a function entry with its parameter types and code offset. */
    method Fun(name: string, scope: string, typeString: string, funParams: string, functionRef: int) returns (idx: nat)
      modifies this
      ensures idx == |old(variables)|
      ensures variables == old(variables) + [NewFunctionEntry(name, scope, typeString, funParams, Function, functionRef)]
      ensures code == old(code) && jumps == old(jumps) && functionRefs == old(functionRefs)
    {
      variables := variables + [NewFunctionEntry(name, scope, typeString, funParams, Function, functionRef)];
      idx := |variables| - 1;
    }

    /** `setAddress`: overwrites the four bytes at `pos` and nothing else. */
    method SetAddress(pos: nat, val: u32)
      requires pos + 4 <= |code|
      modifies this
      ensures code == SetWord(old(code), pos, val)
      ensures forall k :: 0 <= k < |code| && !(pos <= k < pos + 4) ==> code[k] == old(code)[k]
      ensures variables == old(variables) && jumps == old(jumps) && functionRefs == old(functionRefs)
      ensures old(Valid()) ==> Valid()
    {
      SetWordOnlyThere(code, pos, val);
      code := SetWord(code, pos, val);
    }

    method AddJump(addr: nat)
      modifies this
      ensures jumps == old(jumps) + [addr]
      ensures variables == old(variables) && code == old(code) && functionRefs == old(functionRefs)
      ensures old(Valid()) && addr + 4 <= |code| && (forall k :: 0 <= k < |old(jumps)| ==> old(jumps)[k] + 4 <= addr) ==> Valid()
    {
      jumps := jumps + [addr];
    }

    method AddFunction(funVarPos: u32, funCodePos: nat)
      modifies this
      ensures functionRefs == old(functionRefs) + [FunctionRef(funVarPos, funCodePos)]
      ensures variables == old(variables) && code == old(code) && jumps == old(jumps)
    {
      functionRefs := functionRefs + [FunctionRef(funVarPos, funCodePos)];
    }

    /**
     * `operator+=`: B's jump words are relocated in B's own buffer (the
     * loop writes them back into `other.code`), B's fix-ups are appended
     * shifted by A's old length, and B's code is appended.  The DATA
     * section is not merged.
     */
    method Append(other: Bytecode)
      requires other != this
      requires InRange(other.code, other.jumps)
      modifies this, other
      ensures code == old(code) + Relocated(old(other.code), old(other.jumps), |old(code)|)
      ensures jumps == old(jumps) + Shifted(old(other.jumps), |old(code)|)
      ensures functionRefs == old(functionRefs) + ShiftedRefs(old(other.functionRefs), |old(code)|)
      ensures variables == old(variables)
      ensures other.code == Relocated(old(other.code), old(other.jumps), |old(code)|)
      ensures other.jumps == old(other.jumps) && other.functionRefs == old(other.functionRefs)
      ensures other.variables == old(other.variables)
      ensures old(Valid()) && old(other.Valid()) ==> Valid()
    {
      var codeSize := |code|;
      var otherCode, newJumps := RelocateFixups(other.code, other.jumps, codeSize);
      var newRefs := ShiftFunctionRefs(other.functionRefs, codeSize);
      other.code := otherCode;
      jumps, functionRefs := jumps + newJumps, functionRefs + newRefs;
      code := code + otherCode;
      if old(Valid()) && old(other.Valid()) {
        AppendKeepsFixups(old(code), old(jumps), old(other.code), old(other.jumps));
      }
    }

    /** The first loop of `operator+=`: each fix-up word is relocated by `d` and the fix-up itself shifted. */
    static method RelocateFixups(otherCode: seq<byte>, otherJumps: seq<nat>, d: nat) returns (relocated: seq<byte>, shifted: seq<nat>)
      requires InRange(otherCode, otherJumps)
      ensures relocated == Relocated(otherCode, otherJumps, d)
      ensures shifted == Shifted(otherJumps, d)
    {
      relocated, shifted := otherCode, [];
      var i := 0;
      while i < |otherJumps|
        invariant 0 <= i <= |otherJumps|
        invariant InRange(otherCode, otherJumps[..i])
        invariant shifted == Shifted(otherJumps[..i], d)
        invariant relocated == Relocated(otherCode, otherJumps[..i], d)
      {
        var j := otherJumps[i];
        RelocatedStep(otherCode, otherJumps, d, i);
        shifted := shifted + [j + d];
        relocated := SetWord(relocated, j, U32(WordAt(relocated, j) + d));
        i := i + 1;
      }
      assert otherJumps[..i] == otherJumps;
    }

    /** The second loop of `operator+=`: every function fix-up shifted by `d`. */
    static method ShiftFunctionRefs(refs: seq<FunctionRef>, d: nat) returns (shifted: seq<FunctionRef>)
      ensures shifted == ShiftedRefs(refs, d)
    {
      shifted := [];
      var k := 0;
      while k < |refs|
        invariant 0 <= k <= |refs|
        invariant shifted == ShiftedRefs(refs[..k], d)
      {
        var f := refs[k];
        assert refs[..k + 1][..k] == refs[..k];
        shifted := shifted + [f.(functionPos := f.functionPos + d)];
        k := k + 1;
      }
      assert refs[..k] == refs;
    }

    /** `makeAddresses`: every static variable gets a fresh, default-valued cell; other entries are untouched. */
    method MakeAddresses()
      modifies this
      ensures |variables| == |old(variables)|
      ensures forall i :: 0 <= i < |variables| ==>
        variables[i] == if old(variables)[i].variableType == Variable then MakeAddress(old(variables)[i]) else old(variables)[i]
      ensures code == old(code) && jumps == old(jumps) && functionRefs == old(functionRefs)
    {
      var i := 0;
      while i < |variables|
        invariant 0 <= i <= |variables| == |old(variables)|
        invariant forall k :: 0 <= k < i ==>
          variables[k] == if old(variables)[k].variableType == Variable then MakeAddress(old(variables)[k]) else old(variables)[k]
        invariant forall k :: i <= k < |variables| ==> variables[k] == old(variables)[k]
        invariant code == old(code) && jumps == old(jumps) && functionRefs == old(functionRefs)
      {
        if variables[i].variableType == Variable {
          variables := variables[i := MakeAddress(variables[i])];
        }
        i := i + 1;
      }
    }

    /** `disposeAddresses`: every static variable's cell is released; other entries are untouched. */
    method DisposeAddresses()
      modifies this
      ensures |variables| == |old(variables)|
      ensures forall i :: 0 <= i < |variables| ==>
        variables[i] == if old(variables)[i].variableType == Variable then DisposeAddress(old(variables)[i]) else old(variables)[i]
      ensures code == old(code) && jumps == old(jumps) && functionRefs == old(functionRefs)
    {
      var i := 0;
      while i < |variables|
        invariant 0 <= i <= |variables| == |old(variables)|
        invariant forall k :: 0 <= k < i ==>
          variables[k] == if old(variables)[k].variableType == Variable then DisposeAddress(old(variables)[k]) else old(variables)[k]
        invariant forall k :: i <= k < |variables| ==> variables[k] == old(variables)[k]
        invariant code == old(code) && jumps == old(jumps) && functionRefs == old(functionRefs)
      {
        if variables[i].variableType == Variable {
          variables := variables[i := DisposeAddress(variables[i])];
        }
        i := i + 1;
      }
    }
  }
}
