/**
 * The DATA-section entry of a compiled program (class `Datatype`,
 * bytecode.cpp): a named, scoped variable or function, its type string,
 * and for a static variable the storage cell the virtual machine reads and
 * writes.
 *
 * Entries live by value in the `variables` vector of a `Bytecode` and are
 * copied when that vector grows, so an entry is a value here and every
 * mutator is a function returning the updated entry; the `Bytecode` class
 * reassigns its sequence of entries.  The storage cell is the value it
 * holds (`None` is a NULL address).
 */
module Datatypes {
  import opened Encoding
  import opened Arrays

  datatype VariableType = Undefined | Variable | DynamicVariable | Function

  /**
   * `Datatype::operator==` compares the name, scope and type pointers, not
   * the strings they point to; the model has no pointers, and nothing
   * modelled here uses that comparison.
   */
  datatype DataEntry = DataEntry(
    variableType: VariableType,
    name: string,
    scope: string,
    typeString: string,
    funParamDatatype: string,
    address: Option<Value>,
    /** `int function_ref`, -1 until a function's entry offset is known. */
    functionRef: int,
    /** `unsigned int dynamic_idx`, 0xFFFFFFFF unless given. */
    dynamicIdx: u32,
    /** Slot of the current instance in the top call-stack frame. */
    callstackPos: u32)

  const NO_DYNAMIC_IDX: u32 := 0xFFFF_FFFF

  /** `Datatype(name, scope, typeString, variableType)`. */
  function NewEntry(name: string, scope: string, typeString: string, vt: VariableType): DataEntry
  {
    DataEntry(vt, name, scope, typeString, "", None, -1, NO_DYNAMIC_IDX, 0)
  }

  /** `Datatype(name, scope, typeString, dynamic_idx, variableType)`. */
  function NewDynamicEntry(name: string, scope: string, typeString: string, idx: u32, vt: VariableType): DataEntry
  {
    DataEntry(vt, name, scope, typeString, "", None, -1, idx, 0)
  }

  /** `Datatype(name, scope, typeString, funParamDatatype, variableType, function_ref)`. */
  function NewFunctionEntry(name: string, scope: string, typeString: string, funParams: string,
                            vt: VariableType, functionRef: int): DataEntry
  {
    DataEntry(vt, name, scope, typeString, funParams, None, functionRef, NO_DYNAMIC_IDX, 0)
  }

  /**
   * The copy constructor: everything except the storage cell, which the
   * copy does not own, and the call-stack slot, which it leaves unset.
   */
  function Copy(d: DataEntry): (r: DataEntry)
    ensures r.address == None
    ensures r.(address := d.address, callstackPos := d.callstackPos) == d
  {
    d.(address := None, callstackPos := 0)
  }

  /**
   * `makeDynamicAddress`: the cell allocated for the type string's first
   * character, or NULL for any other type; an array cell is an empty array
   * of the type the string declares.  The source leaves an int, float or
   * boolean cell uninitialised (`new long long int` and so on); the model
   * fixes that unspecified content to 0, 0.0 and false.  `makeAddress`
   * resets the cell at once, so only a cell allocated on the call stack by
   * ALLOCVAR can show it.
   */
  function FreshCell(typeString: string): (r: Option<Value>)
    ensures r.Some? <==> Head(typeString) in "ifsba"
    ensures r.Some? ==> TypeChar(r.value) == Head(typeString)
    ensures Head(typeString) == 'a' ==> r == Some(ArrV(EmptyArrayOf(typeString)))
  {
    match Head(typeString)
    case 'i' => Some(IntV(0))
    case 'f' => Some(FloatV(0.0))
    case 's' => Some(StrV(""))
    case 'b' => Some(BoolV(false))
    case 'a' => Some(ArrV(EmptyArrayOf(typeString)))
    case _ => None
  }

  /** The default a cell of type `t` is reset to; an array keeps its types and loses its elements. */
  function ResetValue(t: char, v: Value): Value
  {
    match t
    case 'i' => IntV(0)
    case 'f' => FloatV(0.0)
    case 's' => StrV("")
    case 'b' => BoolV(true)
    case 'a' => if v.ArrV? then ArrV(v.a.(elements := [])) else v
    case _ => v
  }

  /** `setToDefault`: resets the cell, and does nothing without one. */
  function SetToDefault(d: DataEntry): (r: DataEntry)
    ensures r.address.Some? <==> d.address.Some?
    ensures r.(address := d.address) == d
    ensures d.address.Some? && Head(d.typeString) in "ifsb" ==> r.address == Some(DefaultValue(d.typeString))
    ensures d.address.Some? && d.address.value.ArrV? && Head(d.typeString) == 'a' ==>
      r.address == Some(ArrV(d.address.value.a.(elements := [])))
  {
    match d.address
    case None => d
    case Some(v) => d.(address := Some(ResetValue(Head(d.typeString), v)))
  }

  /** `makeAddress`: a fresh cell set to its default. */
  function MakeAddress(d: DataEntry): DataEntry
  {
    SetToDefault(d.(address := FreshCell(d.typeString)))
  }

  /**
   * `disposeAddress`: the cell is released and the address is NULL.  The
   * source frees only when the type string is exactly "i", "f", "s", "b" or
   * "a", so the cell of an array declared with its full type string
   * ("a [i] f") is never freed; the address becomes NULL either way, and
   * the leak is not part of this model.
   */
  function DisposeAddress(d: DataEntry): (r: DataEntry)
    ensures r.address == None
    ensures r.(address := d.address) == d
  {
    d.(address := None)
  }

  /** `getFunRef`: the signed `function_ref` read back as `unsigned int`. */
  function FunRef(d: DataEntry): (r: u32)
    ensures 0 <= d.functionRef < TWO32 ==> r == d.functionRef
    ensures d.functionRef == -1 ==> r == TWO32 - 1
  {
    d.functionRef % 0x1_0000_0000
  }

  function SetCallStackPos(d: DataEntry, pos: u32): DataEntry
  {
    d.(callstackPos := pos)
  }

  function GetCallStackPos(d: DataEntry): u32
  {
    d.callstackPos
  }

  /**
   * A variable that gets its cell from `makeAddress` starts with the same
   * value a newly created array element of that type gets, and a type
   * outside i/f/s/b/a gets no cell.
   */
  lemma MakeAddressIsDefault(d: DataEntry)
    ensures MakeAddress(d).address ==
      (if Head(d.typeString) in "ifsba" then Some(DefaultValue(d.typeString)) else None)
    ensures MakeAddress(d).(address := d.address) == d
  {
  }

  /** Resetting twice is resetting once. */
  lemma SetToDefaultIdempotent(d: DataEntry)
    ensures SetToDefault(SetToDefault(d)) == SetToDefault(d)
  {
  }

  /** `getCallStackPos` returns what `setCallStackPos` stored, and nothing else changes. */
  lemma CallStackPosRoundTrip(d: DataEntry, pos: u32)
    ensures GetCallStackPos(SetCallStackPos(d, pos)) == pos
    ensures SetCallStackPos(d, pos).(callstackPos := d.callstackPos) == d
  {
  }
}
