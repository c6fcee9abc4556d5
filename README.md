# ants: a compiler and virtual machine for a small typed scripting language, modelled in Dafny

ants compiles a small statically typed scripting language to a byte-coded
program and runs that program on a stack machine.  The language has `int`,
`float`, `string` and `boolean` variables, sparse arrays with typed indexes
(`array [int, string] of float a`), typed functions (`function float f of float x`),
`if`/`elif`/`else` blocks, arithmetic with compound assignment (`+=`, `-=`,
`*=`, `/=`), relations, `and`/`or`/`not`, and the built-in functions `sin` and
`cos`.

The model follows the program's own structure.

* `Encoding` (encoding.dfy): bytes, the 4-byte `unsigned int` and 8-byte
  `long long int` operands in little-endian byte order, 32-bit and 64-bit
  wrap-around, and the round trips between numbers and bytes.
* `Arrays` (arrays.dfy): the sparse typed array of array.cpp.  Values,
  index matching, lookup with creation, equality, `+=` merging, the array
  datatype string, and an `Array` class whose methods are proved against
  these functions.
* `Datatypes` (datatypes.dfy): the variable table entries of bytecode.cpp
  (`Datatype`), with the storage a variable gets (`makeAddress`) and
  loses (`disposeAddress`).
* `Instructions` (instructions.dfy): the instruction set of bytecode.h as a
  datatype, each instruction's byte encoding, and a decoder proved to invert
  it.
* `Assembler` (bytecode.dfy): the `Bytecode` class.  It holds the code
  bytes, the jump table, the function references and the variable table, and
  its emitters append one encoded instruction each.  Its `+=` appends another
  unit, relocating that unit's jump words and function references.
* `Layout` (layout.dfy): what a code sequence made of encoded instructions
  looks like, and decoding at a known offset.
* `Text`, `Symbols`, `TypeRules`, `Lexer`, `Grammar` (text.dfy, symbols.dfy,
  typerules.dfy, lexer.dfy, grammar.dfy): the recursive-descent compiler of
  parser.cpp and parser.h.
  * `Symbols` holds the scopes, declared variables and the variable table, with
    exact and inherited lookup.
  * `TypeRules` holds the static datatype predicates.
  * `Lexer` holds the character-level rules (whitespace, identifiers,
    literals, the terminal check, type keywords).
  * `Grammar` holds a `Parser` class with one method per grammar rule.  Each
    method says what code it appends to the unit it is emitting.  `Parse`
    declares the built-in functions, translates the text, links the text
    and function units, and emits the DATA section.
* `Machine` and `Steps` (machine.dfy, steps.dfy): the virtual machine of
  vm.cpp as a pure transition function.  `Step` decodes the instruction at
  the instruction pointer and applies it to the value stack, the call stack
  and the variable storage.  `Run` repeats `Step` until the machine stops,
  for at most a given number of steps.
  The lemmas in `Steps` state what each instruction does.
* `VirtualMachine` (vm.dfy): the `VM` class.  Its value stack and call stack
  are fields, and one method per instruction family updates them.  Each
  method is proved equal to the pure `Step`, and `Execute` loops over
  `Interpret` to drive a whole program.

Where the program does something its authors evidently did not intend, the
model executes the program as written.  A corrected definition stands
beside it, with the evidently intended property proved about it (see
"## Findings").

A 64-bit integer is a Dafny `int` wrapped explicitly to 64 bits.  A
`long double` is a `real`.  A byte is a `byte` newtype of 0..255.  A pointer
into storage is an address datatype: a static variable or a call-stack
slot, followed by a path of array element positions.

## Model

| member | source | states |
|---|---|---|
| Encoding.U32 | bytecode.h:201-209 | a count or code offset below 2^32 is written as itself in an `unsigned int` operand |
| Encoding.ToU32 | parser.cpp:1891-1894 | an `int` stored into an `unsigned int` keeps its value when it is in range and agrees with it modulo 2^32 otherwise |
| Encoding.Wrap64 | vm.cpp:1420-1463 | a `long long int` result is the exact result when that fits in 64 bits and agrees with it modulo 2^64 otherwise |
| Encoding.LittleEndianRoundTrip | bytecode.h:204-208 | reading back the n low-order bytes of a number gives the number modulo 256^n |
| Encoding.FromLittleEndianRoundTrip | vm.cpp:408-413 | writing out the number that n bytes spell gives back the same n bytes |
| Encoding.Word | bytecode.h:204-208 | a 4-byte operand is four bytes long |
| Encoding.WordRoundTrip | vm.cpp:408-413 | the VM reads back exactly the `unsigned int` the emitter wrote |
| Encoding.ReadWordRoundTrip | bytecode.h:142-158 | four code bytes read as a word and written back are unchanged, so relocation only alters the value |
| Encoding.Int64Bytes | bytecode.h:285-298 | a PUTINT operand is eight bytes long |
| Encoding.Int64RoundTrip | vm.cpp:477-491 | PUTINT reads back exactly the 64-bit integer the emitter wrote, negative values included |
| Encoding.ByteCharRoundTrip | vm.cpp:511-526 | a code byte turned into a string character and back is the same byte |
| Arrays.ValueAdd | array.cpp:81-98 | `+=` on value pointers keeps the target's type; a pair of different types leaves the target unchanged |
| Arrays.CheckIndexes | array.cpp:330-361 | the early-return loop answers exactly whether every stored slot matches the searched slot at its position |
| Arrays.FindFrom | array.cpp:553-558 | the position found is the first matching element at or after the start; when none is found, no element there matches |
| Arrays.DefaultValue | array.cpp:590-602 | a created element holds a value of the type that the element type's first character names, or no value for any other character |
| Arrays.Locate | array.cpp:551-629 | lookup keeps the types and every existing element; it adds at most one element, at the end, and only with `create`; an existing key is found at its first position |
| Arrays.JoinTypes | array.cpp:641-653 | n index types joined by commas take 2n-1 characters, and none for no types |
| Arrays.MakeIndexesAt | array.cpp:269-288 | a created element has one index per index type, each the search value converted to that slot's type |
| Arrays.MakeIndexesLength | array.cpp:570-585 | a created element has as many indexes as the array has index types |
| Arrays.MakeIndexesTyped | array.cpp:570-585 | the indexes of a created element have the declared index types |
| Arrays.MadeIndexesMatchKey | array.cpp:330-361 | a created element is found again by the key it was created for |
| Arrays.MatchMadeIsMatchKey | array.cpp:330-361 | against typed stored indexes, the converted key matches exactly when the searched key does |
| Arrays.LocatePreservesWellFormed | array.cpp:551-629 | lookup, with or without creation, keeps the keys typed and free of duplicates |
| Arrays.LocateIdempotent | array.cpp:551-629 | lookup with `create` always yields an element, and a second lookup of the same key finds that element and adds nothing |
| Arrays.LocateFindsCreated | array.cpp:551-629 | a key just created is found again at the position returned for it |
| Arrays.NeIsNotEq | array.cpp:43-79 | `!=` on value pointers is the negation of `==` |
| Arrays.SlotMatchReflexive | array.cpp:330-361 | every typed index vector matches itself |
| Arrays.ValueEqReflexive | array.cpp:43-60 | every well-formed value equals itself |
| Arrays.ArrayEqReflexive | array.cpp:470-488 | every well-formed array equals itself |
| Arrays.CompatibleReflexive | array.cpp:655-667 | every datatype string is compatible with itself |
| Arrays.CompatibleTransitive | array.cpp:655-667 | compatibility of array datatype strings is transitive |
| Arrays.CompatibleAntisymmetric | array.cpp:655-667 | two strings compatible in both directions are equal |
| Arrays.JoinTypesAt | array.cpp:641-653 | the joined string has the k-th index type at position 2k and commas between |
| Arrays.JoinTypesNoBracket | array.cpp:641-653 | simple index types joined by commas contain no closing bracket |
| Arrays.BracketPosition | array.cpp:603-623 | in an array datatype string the first ']' comes right after the joined index types |
| Arrays.DatatypeStringTypeAt | array.cpp:603-623 | the k-th index type is at offset 3 + 2k of the datatype string, where the nested-array scan looks for it |
| Arrays.CompatibleIndexArity | array.cpp:523-532 | two arrays with compatible datatype strings have equally many index types, pairwise equal or float against int |
| Arrays.ScanOverJoin | array.cpp:603-619 | the nested-array scan over joined index types returns those types and the offset of the element type |
| Arrays.ArrayTypePartsRoundTrip | array.cpp:603-623 | decoding the datatype string of an array gives back its index types and element type |
| Arrays.DatatypeStringAsWrittenRejectsWidening | array.cpp:646 | as written, with suitable memory past the string literal, `array [float] of float` and `array [int] of float` are judged incompatible although the widening int-to-float should be allowed |
| Arrays.CompatibleKeysFit | array.cpp:523-532 | every key of an array compatible with the target fits the target's index types |
| Arrays.FoundAfterMergeElement | array.cpp:523-532 | a key that is found stays found after one merge step |
| Arrays.MergeElementStep | array.cpp:523-532 | one merge step keeps the array well formed and leaves the merged key found |
| Arrays.FoundAfterMergeElementAll | array.cpp:523-532 | keys merged earlier stay found after each further merge step |
| Arrays.MergeFromStep | array.cpp:523-532 | merging the next element keeps the loop's invariant for one more element |
| Arrays.MergeFromCovers | array.cpp:523-532 | merging from an index keeps the array well formed and every key of the other array found |
| Arrays.MergeElementShape | array.cpp:523-532 | a merge step keeps every existing element at its position with its indexes |
| Arrays.MergeFromShape | array.cpp:523-532 | merging the remaining elements keeps every existing element at its position with its indexes |
| Arrays.SameShapeTransitive | array.cpp:523-532 | keeping the shape composes over successive merge steps |
| Arrays.MergeCoversOther | array.cpp:523-532 | after `x += y` on compatible well-formed arrays, `x` is well formed and has an element for every key of `y` |
| Arrays.MergeShape | array.cpp:523-532 | `x += y` keeps the types and every existing element with its position and indexes; only values change, and new elements come at the end |
| Arrays.MergeIncompatibleIsNoop | array.cpp:523-532 | `+=` between arrays with incompatible datatype strings changes nothing |
| Arrays.MatchesOneKey | array.cpp:330-361 | stored indexes of the right length match at most one key of a well-formed array |
| Arrays.MergeElementValues | array.cpp:528-530 | one merge step leaves, under the merged key, its value added to the value found there or to a new element's default, and leaves every element whose indexes do not match that key unchanged |
| Arrays.MergeValues | array.cpp:523-532 | after `x += y` on compatible well-formed arrays, the element found under each key of `y` holds `y`'s value for that key added to `x`'s value for it, or to the default value of a new element when `x` had none; every element of `x` that no key of `y` matches keeps its indexes and value |
| Arrays.JoinTypesSnoc | array.cpp:641-653 | appending one index type appends a comma and that type |
| Arrays.DecodeArrayType | array.cpp:603-619 | the scan loop of a nested array type string computes the index types and element type that the string encodes |
| Arrays.NewValue | array.cpp:590-602 | the value of a new element is the default value of the element type |
| Arrays.SelfAssignmentEmpties | array.cpp:458-468 | assigning a non-empty array to itself loses its elements |
| Arrays.Array.Empty | array.cpp:419 | a new array has no index types, no element type and no elements |
| Arrays.Array.constructor | array.cpp:420-423 | a new array has the given types and no elements |
| Arrays.Array.Copy | array.cpp:424-432 | a copied array has the same types and the same elements in order |
| Arrays.Array.Clear | array.cpp:442-447 | `clear` leaves no types and no elements |
| Arrays.Array.ClearElements | array.cpp:449-456 | `clearElements` keeps the types and drops every element |
| Arrays.Array.Assign | array.cpp:458-468 | `operator=` leaves a copy of the source, and leaves an empty array when the source is the target itself |
| Arrays.Array.AssignChecked | array.cpp:458-468 | `operator=` with a self-assignment guard leaves exactly the source's contents |
| Arrays.Array.Find | array.cpp:553-558 | the search loop returns the first element whose indexes match the key |
| Arrays.Array.GetElement | array.cpp:551-629 | `getElement` changes the array and returns the position exactly as `Locate` says |
| Arrays.Array.Equals | array.cpp:470-488 | `==` answers whether both arrays have equally many elements and each element has a matching, equal counterpart |
| Arrays.Array.NotEquals | array.cpp:490-508 | `!=` answers by the same loop with the opposite verdicts |
| Arrays.Array.GetDatatypeString | array.cpp:641-653 | the string built is "a [", the comma-separated index types, "] " and the element type |
| Arrays.Merge | array.cpp:523-532 | `+=` never changes the target's index types or element type, whatever it merges |
| Arrays.Array.AddAssign | array.cpp:523-532 | `+=` leaves the merge of the two arrays, so every key of the other array is present afterwards with the summed value `Arrays.MergeValues` states, and elements no key of the other array matches are unchanged |
| Arrays.Array.Plus | array.cpp:510-521 | `+` returns a fresh array holding the merge, with the element values `Arrays.MergeValues` states, and leaves both operands alone |
| Datatypes.Copy | bytecode.cpp:26-35 | a copied table entry has every field of the original except the storage cell, which it does not own and leaves empty, and the call-stack slot, which it sets to 0 |
| Datatypes.FreshCell | bytecode.cpp:102-133 | a cell is allocated exactly for the type characters i, f, s, b and a, with a value of that type; an array cell is the empty array its type string declares |
| Datatypes.SetToDefault | bytecode.cpp:142-156 | resetting keeps whether there is a cell; a scalar cell gets its type's default, an array cell keeps its types and loses its elements, and no other field changes |
| Datatypes.DisposeAddress | bytecode.cpp:162-176 | after disposal the entry has no cell and no other field has changed |
| Datatypes.FunRef | bytecode.cpp:195-197 | the function reference read as `unsigned int` is itself when it is a real offset, and 2^32-1 while it is still -1 |
| Datatypes.MakeAddressIsDefault | bytecode.cpp:135-140 | a variable's new cell holds the same default a newly created array element of its type gets, and only the cell changes |
| Datatypes.SetToDefaultIdempotent | bytecode.cpp:142-156 | resetting a variable twice is resetting it once |
| Datatypes.CallStackPosRoundTrip | bytecode.cpp:203-209 | the call-stack slot read back is the one stored, and storing it changes nothing else |
| Assembler.SetWord | bytecode.h:186-192 | `setAddress` keeps the code's length and puts the four bytes of the value at the position |
| Assembler.SetWordReadsBack | bytecode.h:186-192 | the word written by `setAddress` reads back as the value written |
| Assembler.Relocated | bytecode.h:142-158 | relocation keeps the code's length |
| Assembler.RelocatedStep | bytecode.h:142-158 | one more turn of the relocation loop relocates one more fix-up and records it shifted |
| Assembler.SetWordOnlyThere | bytecode.h:186-192 | `setAddress` changes no byte outside the four it writes |
| Assembler.SetWordElsewhere | bytecode.h:186-192 | writing a word leaves every word that does not overlap it unchanged |
| Assembler.RelocatedKeepsWord | bytecode.h:142-158 | relocation leaves a word apart from every fix-up unchanged |
| Assembler.RelocatedKeepsUncovered | bytecode.h:142-158 | relocation leaves every byte outside the fix-up words unchanged |
| Assembler.RelocatedLastWord | bytecode.h:142-158 | the last fix-up's word becomes the old word plus the shift, modulo 2^32 |
| Assembler.FixupsPrefix | bytecode.h:142-158 | a prefix of well-placed fix-ups is well placed |
| Assembler.RelocatedEarlierWord | bytecode.h:142-158 | relocating the last fix-up does not disturb the words of earlier ones |
| Assembler.RelocatedWordAt | bytecode.h:142-158 | when fix-ups do not overlap, relocation adds the shift modulo 2^32 to the word at every fix-up |
| Assembler.AppendKeepsFixups | bytecode.h:134-172 | after `A += B` all fix-ups, A's and B's shifted ones, name whole words of the new code and do not overlap |
| Assembler.AppendRelocatesWord | bytecode.h:134-172 | after `A += B`, at B's fix-up shifted by the length of A, the new code holds B's old word plus that length modulo 2^32 |
| Assembler.AppendKeepsBytes | bytecode.h:134-172 | after `A += B`, A's bytes are untouched and every byte of B outside its fix-up words is copied unchanged |
| Assembler.Bytecode.constructor | bytecode.h:123 | a new buffer has no variables, no code, no jumps and no function references |
| Assembler.Bytecode.Clear | bytecode.h:124-129 | `clear` empties all four lists |
| Assembler.Bytecode.Emit | bytecode.h:201-397 | each fixed-shape encoder appends the instruction's encoding, returns the offset of its opcode and changes nothing else |
| Assembler.Bytecode.EmitString | bytecode.h:318-326 | PUTSTRING appends its opcode and the string's zero-terminated bytes and returns the opcode's offset |
| Assembler.Bytecode.EmitSyscall | bytecode.h:371-386 | SYSCALL appends its opcode, the parameter's table index and the zero-terminated function name |
| Assembler.Bytecode.Data | bytecode.h:193-196 | DATA appends a static variable entry and returns its index, leaving the code alone |
| Assembler.Bytecode.DData | bytecode.h:197-200 | DDATA appends a dynamic variable entry with its instance index and returns its index |
| Assembler.Bytecode.Fun | bytecode.h:231-235 | FUN appends a function entry with its parameter types and code reference and returns its index |
| Assembler.Bytecode.SetAddress | bytecode.h:186-192 | `setAddress` overwrites exactly the four bytes at the position and keeps the fix-ups valid |
| Assembler.Bytecode.AddJump | bytecode.h:174-176 | `addJump` records one more fix-up and keeps the fix-ups valid when the new word lies inside the code past the old ones |
| Assembler.Bytecode.AddFunction | bytecode.h:178-180 | `addFunction` records one more function reference |
| Assembler.Bytecode.Append | bytecode.h:134-172 | `+=` appends the other unit's code with its jump words relocated by the old length, shifts its jumps and function references by it, keeps the variables, writes the relocation back into the other unit and keeps both fix-up lists valid |
| Assembler.Bytecode.MakeAddresses | bytecode.h:692-699 | every static variable gets a fresh default cell; every other entry and the code are unchanged |
| Assembler.Bytecode.DisposeAddresses | bytecode.h:701-708 | every static variable loses its cell; every other entry and the code are unchanged |
| Instructions.CString | bytecode.h:318-326 | a zero-terminated string takes at least one byte and at most one more than the string |
| Instructions.CStringTerminated | vm.cpp:511-526 | an emitted string ends with its only zero byte, where PUTSTRING's read loop stops |
| Instructions.CStringLength | bytecode.h:318-326 | a string of non-zero characters is emitted whole, with one zero byte after it |
| Instructions.Encode | bytecode.h:201-397 | every encoding starts with the instruction's opcode |
| Instructions.EncodeLength | bytecode.h:201-397 | each encoder appends one byte without operands, five with a 4-byte operand, two for PUTINDADDR and PUTBOOLEAN, nine for PUTINT, thirteen for PUTFLOAT, and a terminated string for PUTSTRING and SYSCALL |
| Instructions.ReadCString | vm.cpp:511-526 | a string read from the code ends inside the code, after its start |
| Instructions.Decode | vm.cpp:391-1791 | a decoded instruction and its operands lie inside the code, and the next offset is past the opcode |
| Instructions.ReadCStringAt | vm.cpp:511-526 | PUTSTRING's read loop reads back exactly the emitted string and stops past its zero byte |
| Instructions.ReadWordAt | vm.cpp:408-413 | a 4-byte operand is read back as the word written there |
| Instructions.ReadInt64At | vm.cpp:477-491 | an 8-byte operand is read back as the integer written there |
| Instructions.DecodeWordAt | vm.cpp:407-421 | an instruction with a 4-byte operand decodes back to itself and the offset five bytes on |
| Instructions.DecodeNullaryAt | vm.cpp:1537-1540 | an instruction without operands decodes back to itself and the next offset |
| Instructions.DecodeStringAt | vm.cpp:511-526 | an emitted PUTSTRING decodes back to the same string, with the next offset past its zero byte |
| Instructions.DecodeSyscallAt | vm.cpp:1556-1638 | an emitted SYSCALL decodes back to the same index and name |
| Instructions.DecodeLiteralAt | vm.cpp:477-532 | an emitted PUTINDADDR, PUTINT, PUTFLOAT or PUTBOOLEAN decodes back to itself |
| Instructions.DecodeAt | vm.cpp:391-1791 | an encodable instruction found at an offset decodes back to itself and the offset just past it |
| Instructions.DecodeEncode | vm.cpp:391-1791 | the VM decodes what an encoder emitted, whatever code surrounds it |
| Instructions.DecodeOpcode | vm.cpp:391-393 | whatever the VM decodes at an offset has the opcode of the byte found there |
| Instructions.NullaryInstrOpcode | vm.cpp:393 | the instruction the VM selects for a one-byte opcode carries that same opcode |
| Layout.ListingSnoc | bytecode.h:201-397 | emitting one more instruction appends its encoding |
| Layout.ListingAppend | bytecode.h:165-169 | the code of two runs of instructions is the code of the first followed by that of the second |
| Layout.ListingCons | bytecode.h:201-397 | putting an instruction in front puts its encoding in front |
| Layout.ListingDecodes | vm.cpp:380-393 | emitted code reads back instruction by instruction: the i-th instruction is decoded where the previous ones end, and decoding moves to where it ends |
| Layout.DecodeInside | vm.cpp:380-393 | an instruction emitted between two pieces of code decodes back to itself |
| Layout.InitInstrs | parser.cpp:1763-1774 | `initVars` emits one INITVAR per variable of the scope |
| Layout.InitInstrsAt | parser.cpp:1763-1774 | each variable of the scope gets the INITVAR of its own index, after those of the earlier variables of that scope |
| Layout.InitInstrsOnly | parser.cpp:1763-1774 | `initVars` emits nothing but INITVARs |
| Layout.ParamAllocs | parser.cpp:1902-1909 | each parameter gets one ALLOCVARS, the last parameter first |
| Layout.LocalAllocs | parser.cpp:1932-1934 | each local variable gets one ALLOCVAR, in order of declaration |
| Layout.NewIndexes | parser.h:357-369 | the entries added one by one get consecutive indexes |
| Layout.ParametersAtSnoc | parser.cpp:1776-1815 | declaring one more parameter extends the run of parameter entries by one |
| Layout.DataSectionAligned | parser.cpp:2144-2152 | with no undefined entry, the DATA section has one entry per table entry at the same index, with its name, type and dot-joined scope, so every index the compiler emitted names the right entry |
| Layout.TableGrowsTransitive | parser.h:357-369 | growth of the variable table composes |
| Layout.TableGrowsDefined | parser.h:357-369 | a table that grew from one without undefined entries by defined entries has none either |
| Layout.FunctionLaidOutFrom | parser.cpp:1817-1956 | a function's code is its prologue, its body and RETURN of its entry, read off the pieces it was appended from |
| Layout.RefsBelowMono | parser.h:447-451 | a bound on the function references survives the growth of the table |
| Layout.RefsBelowAppend | bytecode.h:160-162 | appending a unit keeps every function reference naming an existing entry |
| Layout.EmitFunctionHead | parser.cpp:1896-1909 | a typed function starts with ALLOCVAR of its entry, registered as the function's entry point, then the ALLOCVARS of its parameters |
| Layout.EmitParamAllocs | parser.cpp:1902-1909 | the parameter loop emits ALLOCVARS for each parameter, the last first |
| Layout.EmitLocalAllocs | parser.cpp:1932-1934 | the local-variable loop emits ALLOCVAR for each variable in order |
| Layout.EmitLocalAlloc | parser.cpp:1932-1934 | one turn of the local-variable loop emits one more ALLOCVAR |
| Layout.EmitFunctionBody | parser.cpp:1931-1938 | a function ends with its locals' allocation, its body, RETURN of its entry and the code of the functions nested in it, with the fix-ups kept valid |
| Layout.EmitBuiltinFunction | parser.cpp:2086-2116 | a builtin function's code is appended with a function reference to its start |
| Layout.EmitBuiltinPrologue | parser.cpp:2092-2094 | a builtin function begins with its entry's allocation, its parameter block and the address of its result |
| Layout.EmitBuiltinCall | parser.cpp:2095-2098 | a builtin function ends with the system call, the store of its result and RETURN |
| Layout.ListingOfThree | bytecode.h:201-397 | three emitted instructions are their encodings one after the other |
| Layout.ListingOfTwo | bytecode.h:201-397 | two emitted instructions are their encodings one after the other |
| Layout.EmitInitVar | parser.cpp:1763-1774 | one turn of `initVars` emits INITVAR exactly for an entry of the scope |
| Layout.EmitPrelude | parser.cpp:2124-2131 | the program's prelude stores true in `true` and false in `false` |
| Layout.EmitConstant | parser.cpp:2125-2127 | one constant is initialised by its address, its value and MOVE |
| Text.Upper | parser.cpp:177 | `toupper` maps exactly the letters a to z to their capitals and leaves every other character alone |
| Text.UpperIdempotent | parser.cpp:177 | upper-casing twice is upper-casing once |
| Text.EqualsIgnoreCaseEquivalence | parser.cpp:154 | comparison ignoring case is reflexive, symmetric and transitive |
| Text.MatchesUpperCase | parser.cpp:167-185 | text spelled in capitals matches its lower-case spelling, as `check_string` compares them |
| Text.StrLessTrichotomy | vm.cpp:1178-1220 | `std::string` order is strict and total |
| Text.StrLessTransitive | vm.cpp:1178-1220 | `std::string` order is transitive |
| Text.PrefixIsLess | vm.cpp:1178-1220 | a proper prefix comes before the longer string |
| Text.EraseAllLength | vm.cpp:1494 | `erase_all` never lengthens a string |
| Text.EraseAllAbsent | vm.cpp:1494 | a string in which the pattern does not occur is left as it is |
| Text.EraseAllLeading | vm.cpp:1494 | an occurrence at the start is removed whole and the scan goes on after it |
| Text.EraseAllSelf | vm.cpp:1494 | erasing a pattern from itself leaves the empty string, and an empty pattern erases nothing |
| Text.EraseAllDoesNotRescan | vm.cpp:1494 | the scan never looks at its own result again, so "aabb" minus "ab" is "ab" |
| Symbols.PlusAsWritten | parser.h:143-145 | as written, moving a location along keeps the offset arithmetic right |
| Symbols.Plus | parser.h:143-145 | moving along a line advances the offset and the column by the increment and keeps the row |
| Symbols.PlusAdditive | parser.h:143-145 | moving along a line can be done in steps |
| Symbols.PlusAsWrittenSwapsRowAndCol | parser.h:143-145 | as written, moving by 0 from row 1, column 2 lands on row 2, column 1, where the corrected move stays put |
| Symbols.Add | parser.h:211-222 | a child scope is the parent's segments followed by one more segment |
| Symbols.Reduce | parser.h:233-237 | `reduce` drops the last segment, and an empty scope stays empty |
| Symbols.ReduceAdd | parser.h:220-237 | `reduce` undoes `add` |
| Symbols.IsRootIff | parser.h:269-271 | a scope is the root exactly when it is the single segment "0" |
| Symbols.StartsWithIsPrefix | parser.h:239-251 | `startsWith` is the prefix relation on segment lists |
| Symbols.StartsWithAdd | parser.h:211-251 | a child scope sees its parent and everything the parent sees, and a scope never sees its own child |
| Symbols.StartsWithTransitive | parser.h:239-251 | `startsWith` is transitive |
| Symbols.StartsWithScan | parser.h:239-251 | the loop with early returns answers exactly whether the other scope is a prefix of this one |
| Symbols.ToString | parser.h:253-267 | the loop writes the segments joined by dots |
| Symbols.Split | parser.cpp:119-120 | splitting at a separator always yields at least one piece |
| Symbols.SplitChar | parser.cpp:119-120 | a character other than the separator extends the last piece |
| Symbols.SplitAppendSegment | parser.cpp:119-120 | appending a piece without the separator extends the last piece by it |
| Symbols.SplitSegment | parser.cpp:119-120 | a piece without the separator splits into itself |
| Symbols.SplitSep | parser.cpp:119-120 | a trailing separator opens an empty last piece |
| Symbols.SplitSepSegment | parser.cpp:119-120 | a separator followed by a piece without it adds that piece to the split |
| Symbols.SplitJoin | parser.h:253-267 | joining by a separator loses nothing on a non-empty list of pieces without it; in particular a dotted scope name gives back the scope |
| Symbols.SameVariableIgnoresRest | parser.h:336-338 | two variables are equal when scope and name agree, whatever their types and positions; the relation is symmetric |
| Symbols.FindSameByKey | parser.h:358 | the search for an equal entry depends only on scope and name |
| Symbols.Missing | parser.h:436-442 | a miss reports an undefined variable of the empty scope with the searched name and no index |
| Symbols.FindSame | parser.h:358 | the position returned is of an entry equal to the searched one, and no entry is equal when none is returned |
| Symbols.InheritedAmong | parser.h:421-434 | the inheriting lookup over a prefix of the table returns a position inside that prefix |
| Symbols.InheritedIsInnermost | parser.h:421-442 | the inheriting lookup finds the innermost visible declaration of the name, ties going to the earliest entry, and nothing exactly when every visible declaration has the empty scope |
| Symbols.InnermostUnique | parser.h:421-434 | only one entry is the innermost visible declaration, so the lookup's answer is determined |
| Symbols.Variables.constructor | parser.h:341-343 | a new table is empty and consistent |
| Symbols.Variables.Clear | parser.h:349-351 | `clear` empties the table |
| Symbols.Variables.Add | parser.h:357-369 | a new scope and name is appended with its own position as index and reported as added; an existing one leaves the table unchanged and reports that entry's index; the table stays free of duplicates |
| Symbols.Variables.GetDatatype | parser.h:371-379 | the type of the first entry with the name in any scope, or "-1" when no entry has the name |
| Symbols.Variables.GetVariable | parser.h:389-443 | EXACT returns the first entry with the same name and scope; INHERITANCE returns the innermost visible declaration; a miss returns false and the undefined variable |
| Symbols.Variables.GetExact | parser.h:414-420 | the EXACT loop finds the first entry with the same name and scope |
| Symbols.Variables.GetInherited | parser.h:421-434 | the INHERITANCE loop finds the first entry of the longest scope that the query scope starts with |
| Symbols.Variables.SetFunctionRef | parser.h:447-451 | the entry's function offset is set, and an index past the end changes nothing |
| Symbols.Variables.UpdateFunctionRefs | parser.h:463-467 | each function fix-up, in order, gives its entry the function's code offset |
| Symbols.WithFunctionRefs | parser.h:463-467 | applying fix-ups keeps the table's length |
| Symbols.WithFunctionRefsAt | parser.h:463-467 | after the fix-ups every referenced entry carries the offset of its last fix-up, and an entry no fix-up names is untouched |
| TypeRules.ConsistentIsEitherAssignment | parser.cpp:91-113 | two types are consistent exactly when one may be assigned to the other; an int may not receive a float |
| TypeRules.ConsistentSymmetric | parser.cpp:91-101 | consistency is reflexive and symmetric |
| TypeRules.ConsistentFunctionArguments | parser.cpp:115-133 | the loop accepts exactly when both comma-split lists have as many pieces and each argument may be assigned to its parameter |
| TypeRules.ArgumentsConsistentJoined | parser.cpp:115-133 | for types without commas, a call agrees with a declaration exactly when it has as many arguments and each may be assigned to its parameter |
| TypeRules.MaxDatatypeCommutative | parser.cpp:135-148 | the order of the operands does not matter and "-1" is the identity |
| TypeRules.MaxDatatypeNumeric | parser.cpp:135-148 | on numbers the result is one of the operands, float exactly when an operand is, and "n" only when both are |
| TypeRules.MaxDatatypeMismatch | parser.cpp:135-148 | two different known types that are not both numeric have no common type |
| TypeRules.ChainTypeNumeric | parser.cpp:947-1091 | a chain of numeric operands is numeric, and float exactly when one operand is |
| TypeRules.ProcessArrayDatatype | parser.cpp:707-715 | indexing is accepted exactly when the array type starts with "a [" and the index types and "]", ignoring case; a refused type is returned unchanged, and an accepted one is split into that prefix and the element type |
| TypeRules.ProcessArrayDatatypeOfDeclared | parser.cpp:707-715 | indexing an array declared with some index types by arguments of exactly those types yields the element type |
| Lexer.IsTerminal | parser.cpp:187-197 | the scan over the terminal symbols answers whether the cursor is at the end of the text or at a character that ends a word |
| Lexer.CheckString | parser.cpp:167-185 | `check_string` succeeds exactly when the text at the cursor spells the word ignoring case; on success the cursor moves past it along the line, otherwise it stays |
| Lexer.IsReserved | parser.cpp:151-160 | an identifier is reserved exactly when it equals one of the reserved words ignoring case |
| Lexer.SkipWhitespace | parser.cpp:200-215 | skipping white space never moves the cursor back or out of the text |
| Lexer.Whitespace | parser.cpp:200-215 | the loop of `whitespace` moves the cursor as `SkipWhitespace` says |
| Lexer.LastNewline | parser.cpp:200-215 | the position returned holds a newline, or is -1 |
| Lexer.WhitespaceEffect | parser.cpp:200-215 | `whitespace` consumes exactly the spaces, tabs and newlines at the cursor; the row grows by the newlines consumed and the column restarts after the last one |
| Lexer.IdentEnd | parser.cpp:242-281 | the run of identifier characters ends inside the text, not before its start |
| Lexer.DigitsEnd | parser.cpp:344-373 | the run of digits is all digits and is followed by a character that is not one |
| Lexer.WordAt | parser.cpp:242-281 | an identifier is a letter or '_' followed by letters, digits and '_', starting after the white space and ending at a terminal |
| Lexer.ScanIdentifier | parser.cpp:242-281 | `identifier` succeeds exactly when a word is at the cursor and it is not reserved; it returns that word and the cursor after it, and otherwise leaves the cursor where it was |
| Lexer.ScannedNameIsNotReserved | parser.cpp:151-160 | an identifier the rule accepts spells no reserved word in any case |
| Lexer.IntegerEnd | parser.cpp:344-373 | an unsigned integer ends at a terminal, past the cursor |
| Lexer.IntegerAt | parser.cpp:344-373 | digits followed by a terminal end past their start |
| Lexer.IntegerText | parser.cpp:344-373 | what the integer rule reads is white space followed by one digit or more |
| Lexer.UnsignedInteger | parser.cpp:344-373 | `unsigned_integer` succeeds exactly when an integer ending at a terminal is at the cursor; it returns the text read and never fails hard |
| Lexer.FloatEnd | parser.cpp:375-408 | an unsigned float ends at a terminal, past the cursor |
| Lexer.FloatExtendsInteger | parser.cpp:438-490 | a float begins with an integer that stops at the '.', so the literal rule must try the float first |
| Lexer.UnsignedFloat | parser.cpp:375-408 | `unsigned_float` succeeds exactly when an integer, '.', and an integer ending at a terminal are at the cursor; it fails hard exactly when the integer and '.' are read but the rest is not |
| Lexer.IntegerAfterWhitespace | parser.cpp:344-373 | the integer rule reads the same after the white space has already been skipped |
| Lexer.WhitespaceIdempotent | parser.cpp:200-215 | skipping white space twice is skipping it once |
| Lexer.BooleanValue | parser.cpp:410-436 | `boolean_value` accepts "true" or "false" in any case when a terminal follows it, returns which, and does not retry "false" after a "true" that runs on |
| Lexer.StringBodyEnd | parser.cpp:283-306 | a string literal's body ends at the next unescaped quote or at the end of the text |
| Lexer.EscapedQuoteDoesNotEnd | parser.cpp:283-306 | an escaped quote does not end the literal |
| Lexer.StringExpression | parser.cpp:308-342 | `string_expression` accepts a quote, the body, a closing quote and a terminal, returns the body as written and fails hard once the opening quote is read |
| Lexer.StepStringChar | parser.cpp:283-306 | each unit of the body, an escape pair or one character, moves the cursor on without changing where the body ends |
| Lexer.ArrayTypeStringParts | parser.cpp:1640-1687 | the type string of an array declaration decodes back into its index types and its element type's string |
| Lexer.ArrayTypeStringIndexed | parser.cpp:707-715 | indexing an array declaration with arguments of its index types yields its element type |
| Lexer.TypeStringInjective | parser.cpp:1613-1696 | different declarations have different type strings |
| Lexer.FirstMatch | parser.cpp:1620-1640 | the keyword found comes from the list, at or after the starting one |
| Lexer.FirstMatchIsFirst | parser.cpp:1620-1640 | the keyword found is spelled at the cursor, and no earlier keyword is; when none is found none of them is there |
| Lexer.MatchKeyword | parser.cpp:1585-1588 | keywords tried in order from the same cursor find the first one spelled there, and the cursor moves past it |
| Lexer.IndexListAt | parser.cpp:1576-1611 | the index type list read at a cursor: the letters of the keywords spelled there, separated by commas and white space, and the cursor after the last one, which lies past the start; nothing when a keyword is missing at the start or after a comma |
| Lexer.IndexTypeDeclaration | parser.cpp:1576-1611 | `index_type_declaration` succeeds exactly when the four index type keywords form a list at the cursor, and then returns that list's letters joined by commas and the cursor after it; it never fails soft, and on failure the cursor stays |
| Lexer.IndexTypeList | parser.cpp:1576-1611 | the loop over comma-separated keywords succeeds exactly when `Lexer.IndexListAt` reads a list there, and returns the letters it reads joined by commas and the cursor after the list |
| Lexer.TypeKeywordAsWritten | parser.cpp:1620-1640 | the keyword chain as written finds a keyword from the list and never moves the cursor back; with no keyword found the cursor stays |
| Lexer.TypeKeywordStep | parser.cpp:1620-1640 | a missing keyword tries the next one at the same place, and a keyword spelled without a terminal tries the next one after it |
| Lexer.TypeKeyword | parser.cpp:1620-1640 | the loop of type keywords moves the cursor as the keyword chain as written does |
| Lexer.TryTypeKeyword | parser.cpp:1620-1640 | one keyword of the chain either ends the search with the keyword the chain finds, or leaves a cursor from which the rest of the chain finds the same |
| Lexer.TypeDeclAt | parser.cpp:1613-1696 | the type declaration read at a cursor: a simple type for the first four keywords of the chain as written, the array declaration read after `array`; a valid declaration and a cursor past the start |
| Lexer.ArrayDeclAt | parser.cpp:1640-1687 | what follows `array`: `[`, an index type list, `]`, `of` and a type declaration, white space allowed before each; the array of those index types and that element declaration |
| Lexer.TypeKeywordAdvances | parser.cpp:1620-1640 | a keyword found by the chain as written ends past the cursor and inside the text |
| Lexer.TypeDeclaration | parser.cpp:1613-1696 | `type_declaration` succeeds exactly when `Lexer.TypeDeclAt` reads a declaration at the cursor, and returns that declaration, its type string and the cursor after it; it fails soft exactly when no type keyword is found, and on failure the cursor stays |
| Lexer.KeywordTypeDeclaration | parser.cpp:1613-1696 | the same over any keyword list whose first four keywords name the simple types and whose last is `array`: a simple keyword gives its type, and after `array` the rule succeeds exactly when `Lexer.ArrayDeclAt` reads the rest, returning what it reads |
| Lexer.SimpleTypeWords | parser.cpp:1620-1640 | the type keywords are not empty, and the first four name the simple types |
| Lexer.ArrayTypeDeclaration | parser.cpp:1640-1687 | after `array`, the rule succeeds exactly when `Lexer.ArrayDeclAt` reads the rest, and returns that array declaration, its type string and the cursor after it; otherwise it fails hard with the cursor put back |
| Lexer.TypeKeywordAsWrittenRunsTogether | parser.cpp:1620-1640 | as written, `intfloat x` declares a float `x`, while no type keyword followed by a terminal is at the start |
| Lexer.NoTypeKeywordAtIntFloat | parser.cpp:1620-1640 | in `intfloat x`, no type keyword followed by a terminal is at the start |
| Grammar.Stoll | parser.cpp:470 | `stoll` of a digit string is its decimal value, and it fails exactly when that value does not fit in a `long long int` |
| Grammar.DecimalAppend | parser.cpp:470 | one more digit makes a numeral ten times as much plus that digit |
| Grammar.DecimalString | parser.cpp:2025 | `to_string` of a count is a non-empty run of digits, with a leading zero only for zero |
| Grammar.DecimalStringRoundTrip | parser.cpp:2025 | the numeral of a count reads back as the count |
| Grammar.DecimalStringInjective | parser.cpp:2025-2036 | different block counts give different numerals, so the sub-scopes of a scope have different names |
| Grammar.KeywordAsWrittenMatchesInsideWord | parser.cpp:1290 | as written, "order" starts with the operator `or`, where a keyword followed by a terminal is not found |
| Grammar.AndAsWrittenMatchesInsideWord | parser.cpp:1240 | as written, `and` is found at the start of "andy" |
| Grammar.NotAsWrittenMatchesInsideWord | parser.cpp:822 | as written, the unary `not` is found at the start of "note" |
| Grammar.KeywordAtIsKeywordAsWritten | parser.cpp:822 | a keyword followed by a terminal is found as written too, and a keyword found as written is a keyword exactly when a terminal follows |
| Grammar.KeywordOperator | parser.cpp:1240 | the reader of `and`, `or` and `not` succeeds exactly when the keyword is spelled at the cursor ignoring case, even inside a longer word, and moves past it |
| Grammar.RelationOperator | parser.cpp:1093-1150 | `relation_operator` reads a comparison spelled after the white space, a two-character one before a one-character one, and moves past it; otherwise the cursor stays |
| Grammar.PlusAsWrittenReadsSameSymbol | parser.h:143-145 | the second character of a two-character operator is found the same way through the defective and the corrected `operator+`, so the defect does not change what is parsed |
| Grammar.AssignmentOperator | parser.cpp:1409-1466 | `assignment_operator` reads `=` or a compound assignment after the white space and moves past it; otherwise the cursor stays |
| Grammar.ArithOperator | parser.cpp:912-1035 | `mult_operator` and `additive_operator` read one of their two characters after the white space and return its instruction |
| Grammar.UnaryOperator | parser.cpp:809-834 | `unary_operator` reads '-' with operand type "n" or `not` with operand type "b" |
| Grammar.AssignmentRejectsNarrowing | parser.cpp:1518-1551 | no assignment operator lets an int receive a float, while a float may receive an int |
| Grammar.ChainTypeStrings | parser.cpp:1037-1091 | a chain of strings has type string |
| Grammar.ChainTypeSnoc | parser.cpp:947-1091 | one more operand combines the chain's type with the operand's |
| Grammar.AllNumericSnoc | parser.cpp:947-1000 | a numeric chain with one more numeric operand is numeric |
| Grammar.AllStringsSnoc | parser.cpp:1037-1091 | a chain of strings with one more string is all strings |
| Grammar.ProductSnoc | parser.cpp:947-1000 | each turn of the multiplicative loop keeps the chain's type and its numeric operands |
| Grammar.SumSnoc | parser.cpp:1037-1091 | each turn of the additive loop keeps the chain's type and operands that are all numbers or all strings |
| Grammar.BuiltinPrefixFresh | parser.cpp:2078-2116 | on an empty table neither builtin function nor its parameter is declared before `parse` adds it |
| Grammar.AppendUnits | parser.cpp:2133-2137 | the program's code is its head, then the text's unit and the functions' unit, each relocated to its place, with every function reference naming an entry |
| Grammar.LinkedAfterHead | parser.cpp:2133-2137 | code made of a head and two relocated units is linked, its body being what follows the head |
| Grammar.Absorb | parser.cpp:2019-2028 | appending a statement's code relocates it to the end and registers no function |
| Grammar.AbsorbFunctions | parser.cpp:1935-1937 | appending a unit to the function code relocates it and keeps every function reference naming an entry |
| Grammar.ElementTypeOfDeclared | parser.cpp:538-546 | indexing a declared array with its index types yields its element type |
| Grammar.ElementTypeSnoc | parser.cpp:524-589 | each further `[...]` indexes the element type reached so far |
| Grammar.AppendInstruction | parser.cpp:1192-1193 | appending a one-instruction buffer appends that instruction's encoding and nothing else |
| Grammar.EmitJump | parser.cpp:1322-1328 | a jump is emitted with a zero target and its word is registered for relocation |
| Grammar.Patch | parser.cpp:1330-1331 | patching a jump word writes the value there, changes no other byte and keeps the code before the jump |
| Grammar.CloseTrueBranch | parser.cpp:1327-1334 | after the first branch of `?:` comes JUMP and ':', and the JUMPIFFALSE is patched to the code after the JUMP |
| Grammar.CloseAlternatives | parser.cpp:1339-1340 | the JUMP after the first branch is patched to the end of the second |
| Grammar.FunctionEntryKept | parser.h:357-369 | an entry of the table stays as it is while the table grows |
| Grammar.Parser.constructor | parser.cpp:72-75 | a new parser has an empty variable table, the `variables` member declared at parser.h:484 |
| Grammar.Parser.Literals | parser.cpp:438-490 | `literals` appends PUTSTRING, PUTFLOAT, PUTINT or PUTBOOLEAN for the literal at the cursor, with its type, and fails softly exactly on the right when no literal begins there |
| Grammar.Parser.StringLiteral | parser.cpp:446-456 | the string alternative of `literals` appends PUTSTRING of the literal's body and fails softly exactly when no quote is there |
| Grammar.Parser.NumberLiteral | parser.cpp:458-480 | after a string is ruled out, a float is appended as PUTFLOAT, an integer as PUTINT and a boolean as PUTBOOLEAN; the rule fails softly exactly when no literal is there |
| Grammar.Parser.IntegerOrBoolean | parser.cpp:466-480 | after a string and a float are ruled out, an integer is appended as PUTINT and a boolean as PUTBOOLEAN |
| Grammar.Parser.Primary | parser.cpp:492-666 | `primary_expression` fails softly exactly when no identifier is at the cursor and hard when it is undeclared; a variable gets PUTADDR or PUTDADDR and its indexes, a function is called on the right and addressed on the left |
| Grammar.Parser.Access | parser.cpp:511-656 | the name's entity decides: a variable's address and indexes, a function's call or its result's address, anything else an error |
| Grammar.Parser.Indexes | parser.cpp:524-589 | each `[...]` must index the array type reached so far and appends PUTINDADDR with the number of indexes; the type returned is the element type reached |
| Grammar.Parser.FunctionCall | parser.cpp:593-635 | a call needs an argument list and ')', arguments assignable to the parameters, and ends with CALL of the function's entry |
| Grammar.Parser.ArgumentList | parser.cpp:668-705 | `argumentlist_expression` reads one expression or more separated by commas and returns their count and their comma-joined types; every failure is hard |
| Grammar.Parser.Postfix | parser.cpp:717-807 | `postfix_expression` appends a literal or a parenthesised expression on the right, or a name after leading dots, each dot moving the lookup one scope out; on the left only a name is accepted |
| Grammar.Parser.Operand | parser.cpp:726-766 | on the right a literal is appended as itself, or a parenthesised expression follows a '(' |
| Grammar.Parser.NamedOperand | parser.cpp:768-807 | a name is looked up in the scope reduced once for each leading dot |
| Grammar.Parser.Unary | parser.cpp:836-910 | `unary_expression` applies '-' or `not` on the right to an operand of a consistent type and ends with NEG; otherwise it is a postfix expression |
| Grammar.Parser.Factor | parser.cpp:947-1000 | each later operand of a product needs it and the product so far to be numeric, and then the pending operator is emitted after it |
| Grammar.Parser.Mult | parser.cpp:947-1000 | `mult_expression` has the type of its chain of operands; with two or more they are all numeric and the code ends with MUL or DIV |
| Grammar.Parser.Term | parser.cpp:1037-1091 | each later operand of a sum needs it and the sum so far to be both numbers or both strings, and the pending operator follows it |
| Grammar.Parser.Additive | parser.cpp:1037-1091 | `additive_expression` has the type of its chain; with two or more operands they are all numbers or all strings and the code ends with ADD or SUB |
| Grammar.Parser.Relational | parser.cpp:1152-1199 | `relational_expression` is its left operand alone, or a boolean comparison of two operands of consistent types ending with the comparison instruction |
| Grammar.Parser.Comparison | parser.cpp:1172-1193 | the right operand of a comparison must be consistent with the left, and the comparison follows its code |
| Grammar.Parser.Conjunct | parser.cpp:1201-1251 | each later operand of `and` needs it and the previous one to be boolean, and MUL follows it |
| Grammar.Parser.LogicalAnd | parser.cpp:1201-1251 | `logical_and_expression` with two or more operands has only boolean operands and ends with MUL |
| Grammar.Parser.Disjunct | parser.cpp:1253-1301 | each later operand of `or` needs it and the previous one to be boolean, and ADD follows it |
| Grammar.Parser.LogicalOr | parser.cpp:1253-1301 | `logical_or_expression` with two or more operands has only boolean operands and ends with ADD |
| Grammar.Parser.Conditional | parser.cpp:1303-1407 | `conditional_expression` is a disjunction alone, or a boolean condition followed by JUMPIFFALSE to the second branch, the first branch, and JUMP past the second, both jumps patched and registered |
| Grammar.Parser.Branch | parser.cpp:1324-1336 | a branch of `?:` is an expression whose code goes at the end of the buffer |
| Grammar.Parser.Alternatives | parser.cpp:1322-1376 | the two branches of `?:` leave the jumps patched as `Conditional` promises; every failure is hard |
| Grammar.Parser.TrueBranch | parser.cpp:1322-1334 | the first branch is followed by JUMP and ':', and the JUMPIFFALSE is patched to the code after the JUMP |
| Grammar.Parser.Assignment | parser.cpp:1468-1574 | `assignment_expression` appends the left operand's address, the value and then the operator's MOVE instruction, and only for operand types the operator accepts |
| Grammar.Parser.AssignedValue | parser.cpp:1498-1556 | the value of an assignment must have a type the operator accepts for the target, and the operator's instruction follows its code |
| Grammar.Parser.VariableDeclaration | parser.cpp:1698-1761 | `variable_declaration` fails softly exactly when no type is at the cursor; on success the name was not declared in exactly this scope and is added with the declared type string; on failure the table is unchanged |
| Grammar.Parser.FunctionParameters | parser.cpp:1776-1815 | `function_parameters_declaration` declares one parameter or more as dynamic variables and returns their comma-joined types, failing softly exactly when no type is at the cursor |
| Grammar.Parser.Parameter | parser.cpp:1786-1798 | one parameter becomes a new dynamic variable of the scope at the next index; on failure the table is unchanged |
| Grammar.Parser.InitVars | parser.cpp:1763-1774 | `initVars` appends INITVAR for every variable declared in exactly the scope, in table order |
| Grammar.Parser.FunctionName | parser.cpp:1830-1859 | a function definition starts with the keyword `function` and a name with no entry in exactly the parent scope, and fails softly exactly without the keyword |
| Grammar.Parser.SignatureParameters | parser.cpp:1861-1887 | a parameter list is present exactly when '(' follows the name, and its parameters are dynamic variables of the function's scope |
| Grammar.Parser.FunctionType | parser.cpp:1889-1926 | a function with `of <type>` is added as a function entry and its code starts with ALLOCVAR of that entry, registered as its entry point, then the ALLOCVARS of its parameters; an untyped one uses 0 as its entry |
| Grammar.Parser.FunctionSignature | parser.cpp:1830-1926 | the head of a definition declares name, parameters and type, and for a typed function emits its prologue and function reference |
| Grammar.Parser.FunctionDefinition | parser.cpp:1817-1956 | `function_definition` lays out the function as its prologue, the body and RETURN of its entry, and registers a typed function's entry point |
| Grammar.Parser.FunctionBody | parser.cpp:1928-1947 | the function's code is ALLOCVAR of each local variable, the body, RETURN of the function's entry and the code of the nested functions |
| Grammar.Parser.BlockStatement | parser.cpp:1958-1999 | `block_statement` fails softly exactly when no '{' is at the cursor and on success ends just after the closing '}' |
| Grammar.Parser.TranslationUnit | parser.cpp:2001-2061 | `translation_unit` reads statements up to the end of the text, appending END, or, outside the root scope, up to a '}' |
| Grammar.Parser.Statement | parser.cpp:2015-2049 | one statement: the alternatives are tried in order, and the block count grows by at most one |
| Grammar.Parser.CompoundStatement | parser.cpp:2024-2049 | after the simple alternatives: a block, a function definition, or outside the root scope a closing '}' |
| Grammar.Parser.SimpleStatement | parser.cpp:2018-2023 | an assignment or a variable declaration; on failure the output buffer is unchanged |
| Grammar.Parser.BlockAlternative | parser.cpp:2024-2030 | a block in the next numbered sub-scope, whose INITVARs and code go to the output; it fails softly exactly when no '{' is there |
| Grammar.Parser.FunctionAlternative | parser.cpp:2031-2036 | a function definition, whose code goes to the function buffer; it fails softly exactly without the keyword `function` |
| Grammar.Parser.AddBuiltinPair | parser.cpp:2089-2090 | a builtin function and its parameter `x` become two entries of the table |
| Grammar.Parser.DeclareBuiltinFunction | parser.cpp:2086-2100 | a builtin function's entries are added and its code, ending with the system call and RETURN, goes to the function buffer with a reference to its start |
| Grammar.Parser.DeclareConstants | parser.cpp:2078-2079 | on an empty table `true` and `false` become its first two entries |
| Grammar.Parser.DeclareBuiltins | parser.cpp:2076-2116 | on an empty table the constants and the builtin functions become its first six entries, and `sin` and `cos` get their code |
| Grammar.Parser.EmitDataSection | parser.cpp:2144-2152 | the DATA loop appends one entry per table entry to the variable list and leaves the code alone |
| Grammar.Parser.EmitStart | parser.cpp:2122-2131 | the program starts with the INITVARs of the root scope and the initialisation of `true` and `false` |
| Grammar.Parser.Describe | parser.cpp:2140-2152 | the function entries get their code offsets from the fix-ups, then the DATA section describes the table |
| Grammar.Parser.LinkUnits | parser.cpp:2122-2137 | the program is the start, then the text's code and the functions' code, each relocated to its place |
| Grammar.Parser.Link | parser.cpp:2121-2153 | after a successful translation the program is laid out as `LinkUnits` says, the function entries carry their offsets and the variable list is the DATA section of the table |
| Grammar.Parser.Translate | parser.cpp:2076-2119 | the builtins are declared, then the text is translated as the root scope with static variables; on an empty table the builtins are its first entries |
| Grammar.Parser.Parse | parser.cpp:2063-2164 | `parse` either fails with an empty program, or yields the start, the text's code and the functions' code relocated in order, the function entries carrying their offsets and the DATA section describing the whole table |
| Machine.KindOfChar | vm.cpp:209-219 | a DATA entry's first type character names a kind with a value exactly when it is one of i, f, s, b, a; it never names an address |
| Machine.KindOf | vm.h:7-9 | a stored value's kind is the one its type character names, never an address |
| Machine.ElementKind | vm.cpp:81-83 | an operand element reports the address kind exactly when it is an address |
| Machine.FinalKind | vm.cpp:85-87 | the final kind of a value element is its own kind, and of an address the kind it points to |
| Machine.AddVariable | vm.h:182-185 | `addVariable` appends the cell and returns its slot, the old number of cells; earlier cells and the return offset are kept |
| Machine.GetVariable | vm.h:187-193 | a slot past the frame's cells yields the frame's dummy cell |
| Machine.AddVariableThenGet | vm.h:182-193 | an added cell is found again in the slot `addVariable` returned, and every earlier slot reads as before |
| Machine.AddAllSlots | vm.h:182-185 | cells added one after another extend the frame's list in that order and keep its return offset |
| Machine.FreshFrameSlots | vm.h:170-193 | in a new frame the i-th added cell is in slot i |
| Machine.SetRootValue | vm.cpp:101-118 | writing a cell leaves the offset, the stack and the number of entries and frames alone, and the cell then holds the new value |
| Machine.ReplaceThenFollow | vm.cpp:101-118 | an element path that leads somewhere can be written, and reading along it gives back what was written |
| Machine.ReplaceNeedsPath | vm.cpp:101-118 | an element path can be written only where it can be read |
| Machine.StoreThenLoad | vm.cpp:101-118 | a write through an address succeeds exactly when something is behind it, reads back there, and leaves every other cell, the stack and the offset as they were |
| Machine.SetRootElsewhere | vm.cpp:101-118 | writing one cell leaves the value of every other cell unchanged |
| Machine.Fetch | vm.cpp:101-118 | an operand reads as a value of its final kind: a value element as itself, an address of no value kind as nothing |
| Machine.Order | vm.cpp:1092-1263 | the ordering the comparison opcodes share is -1, 0 or 1 |
| Machine.Relation | vm.cpp:1008-1263 | on values other than arrays, a comparison that succeeds pushes whether its relation holds for their order |
| Machine.Negate | vm.cpp:1508-1536 | a NEG that succeeds keeps the operand's kind |
| Machine.Push | vm.h:196-213 | pushing puts the element on top of the stack and changes nothing else |
| Machine.Drop | vm.h:196-213 | popping n elements removes exactly the top n and changes nothing else |
| Machine.FetchAll | vm.cpp:456-463 | reading every index operand yields one value per index |
| Machine.Reversed | vm.cpp:428-433 | the indexes popped one at a time are the pushed ones in reverse order, element by element |
| Machine.Allocate | vm.cpp:1711-1730 | ALLOCVAR can allocate exactly when the DATA entry exists and a frame is open |
| Machine.OrderAntisymmetric | vm.cpp:1092-1263 | the comparison order is reflexive and antisymmetric, and 0 between values of one kind means they are equal |
| Machine.OrderTransitive | vm.cpp:1092-1263 | the comparison order is transitive |
| Machine.ComparisonDuality | vm.cpp:1008-1263 | LESS of x, y is GREATER of y, x, LESSEQUAL is GREATEREQUAL swapped, each comparison is the negation of its complement and EQUAL is symmetric |
| Machine.EqualNumbers | vm.cpp:1008-1049 | EQUAL and LESS on an integer and a float compare the numbers' values |
| Machine.ArrayComparisons | vm.cpp:1008-1263 | arrays compare by `Array::operator==` and `!=` and the four orderings report that arrays are not supported |
| Machine.DivisionByZero | vm.cpp:1355-1419 | DIV reports a zero divisor exactly when both operands are numbers and the divisor is zero |
| Machine.DivisionIsExact | vm.cpp:1355-1419 | DIV of numbers gives a float that times the divisor is the dividend |
| Machine.AddSubNumbers | vm.cpp:1420-1507 | ADD and SUB of two integers wrap at 64 bits and agree with exact arithmetic when that fits; with a float they are exact |
| Machine.BooleanOperators | vm.cpp:1311-1536 | on booleans ADD is or, SUB exclusive or, MUL and, NEG not, and DIV is reported unsupported |
| Machine.StringOperators | vm.cpp:1311-1536 | on strings ADD appends and SUB erases every occurrence, while MUL, DIV and NEG report strings unsupported |
| Machine.NegateTwice | vm.cpp:1508-1536 | NEG applied twice to a number or boolean gives it back, except for the one integer whose negation wraps |
| Machine.AssignedKeepsKind | vm.cpp:267-378 | an assignment that succeeds leaves a value of the target's own kind, so an integer stored in a float variable becomes a float |
| Machine.AssignedNeedsConsistentKinds | vm.cpp:233-243 | kinds that `isDatatypeConsistentAssignment` rejects are reported as the operator's inconsistency |
| Machine.CompoundIsBinary | vm.cpp:559-1007 | `x += y`, `x -= y` and `x *= y` store what ADD, SUB and MUL compute, and `/=` into a float with a divisor read through an address stores what DIV computes |
| Machine.MoveWidens | vm.cpp:267-378 | MOVE and MOVEADD of an integer into a float variable widen the integer exactly |
| Machine.MoveArrays | vm.cpp:311-323 | MOVE of arrays copies the source when the target's element type accepts it and reports an inconsistency otherwise; an array moved into its own cell ends up empty |
| Machine.MoveDivDivides | vm.cpp:895-1007 | the corrected MOVEDIV into a float by a nonzero number stores a float that times the divisor is the old value, whether the divisor came from an address or not |
| Machine.MoveDivAsWrittenFromAddress | vm.cpp:895-990 | as written, MOVEDIV by a divisor read through an address agrees with the corrected division |
| Machine.MoveDivAsWrittenMultiplies | vm.cpp:974-987 | as written, `x /= 2` on 8.0 with a plain 2 gives 16.0 where division gives 4.0 |
| Steps.StepExecutes | vm.cpp:380-393 | below the end of the code, a step executes the instruction encoded at the offset with the offset moved past its operands |
| Steps.StepDecoded | vm.cpp:380-393 | below the end of the code and off PUTMEMBERADDR, a step executes what decodes at the offset |
| Steps.OpcodeOfPutMemberAddr | vm.cpp:476 | of the encodable instructions only PUTMEMBERADDR carries its opcode |
| Steps.StepStatus | vm.cpp:386-406 | the machine stops with OK_STOP exactly past the end of the code or at END, and reports an invalid instruction exactly at DATA, DDATA and FUN |
| Steps.ExecuteStatus | vm.cpp:393-1788 | of the decoded instructions only END stops the machine, and only DATA, DDATA and FUN are invalid |
| Steps.ReportedStatuses | vm.h:65-127 | the inconsistency, expected-address and array-ordering statuses of each operator family are execution errors |
| Steps.AssignedStatus | vm.cpp:267-378 | an assigned value that fails reports an execution error |
| Steps.AssignStatus | vm.cpp:533-1007 | an assignment store that fails reports an execution error |
| Steps.AssignStepStatus | vm.cpp:533-1007 | an assignment opcode never stops the machine as OK_STOP nor reports an invalid instruction |
| Steps.CompareStepStatus | vm.cpp:1008-1263 | a comparison never stops the machine as OK_STOP nor reports an invalid instruction |
| Steps.ArithmeticStepStatus | vm.cpp:1311-1507 | an arithmetic opcode as executed never stops the machine as OK_STOP nor reports an invalid instruction |
| Steps.ArithmeticResultStatus | vm.cpp:1311-1507 | the corrected arithmetic step never stops the machine as OK_STOP nor reports an invalid instruction |
| Steps.PutIndAddrStatus | vm.cpp:422-475 | PUTINDADDR never stops the machine as OK_STOP nor reports an invalid instruction |
| Steps.SyscallStatus | vm.cpp:1556-1638 | SYSCALL never stops the machine as OK_STOP nor reports an invalid instruction |
| Steps.AllocVarsStatus | vm.cpp:1732-1764 | ALLOCVARS never stops the machine as OK_STOP nor reports an invalid instruction |
| Steps.AssignWritesOnlyTarget | vm.cpp:533-1007 | an assignment pops its two operands and writes at most the cell its target starts at; when it fails nothing in memory changes |
| Steps.AssignFrame | vm.cpp:533-1007 | a successful store changes only the cell it writes through and keeps the stack and the offset |
| Steps.AssignStores | vm.cpp:533-1007 | after a successful assignment the target holds what the operator computes from its old value and the operand |
| Steps.MoveArrayIntoItself | array.cpp:458-468 | `a = a` on an array variable runs and leaves the variable holding an array with no types and no elements |
| Steps.AssignStepRuns | vm.cpp:533-558 | an assignment that runs had an address below its value and stores what the store computes |
| Steps.AssignThenLoad | vm.cpp:533-558 | what a successful store writes is read back at the target |
| Steps.CompareReadsOnly | vm.cpp:1008-1263 | a comparison pops its two operands and pushes the relation's verdict on their values; memory is unchanged |
| Steps.ArithmeticReadsOnly | vm.cpp:1311-1463 | computing MUL, DIV, ADD or SUB changes nothing in memory, and a reported failure leaves the operands popped |
| Steps.ArithmeticPushes | vm.cpp:1311-1507 | MUL, DIV, ADD and SUB run on exactly when the kinds agree, both operands read and the operator is defined on them, and the result replaces the two operands |
| Steps.ArithmeticRuns | vm.cpp:1311-1507 | an arithmetic operator runs on exactly when its operands agree, can be read and combine |
| Steps.ArithmeticPushed | vm.cpp:1311-1507 | when it runs on, an arithmetic operator replaces its two operands by their combination |
| Steps.BinaryStatus | vm.cpp:1311-1507 | an arithmetic operator that fails reports an execution error |
| Steps.NumericFailure | vm.cpp:1311-1507 | on two numbers the arithmetic operators fail only by DIV's zero divisor |
| Steps.FetchIgnoresStack | vm.cpp:101-118 | reading an operand depends on memory, not on the stack or the offset |
| Steps.JumpIfFalseBranches | vm.cpp:1264-1298 | JUMPIFFALSE pops a boolean: false jumps to the target, true goes on after the operand, another kind is reported |
| Steps.CallThenReturn | vm.cpp:1541-1696 | CALL pushes a frame returning after the CALL and jumps to the function; a RETURN finding that frame drops it and resumes after the CALL |
| Steps.ReturnPushesResult | vm.cpp:1649-1685 | RETURN of a typed function pushes the value of the function variable's cell in the dropped frame |
| Steps.ReturnWithoutFrame | vm.cpp:1690-1693 | RETURN without a frame reports that there is no return point and moves only past the opcode |
| Steps.AllocVarThenPutDAddr | vm.cpp:1711-1786 | ALLOCVAR gives the entry a fresh cell of its kind in the current frame, and PUTDADDR then pushes that cell's address |
| Steps.FollowAppend | vm.cpp:101-118 | one more element position on a path reads one level deeper |
| Steps.LoadIgnoresStack | vm.cpp:101-118 | reading through an address does not look at the operand stack |
| Steps.PutIndAddrReachesElement | vm.cpp:422-475 | a successful PUTINDADDR replaces the array's address and its indexes by the address of an element of that array with those index values, once that element exists |
| Steps.PutIndAddrNeedsOperands | vm.cpp:428-437 | PUTINDADDR runs on only when the array and its indexes are on the stack |
| Steps.PutIndAddrUnfolds | vm.cpp:428-475 | with its operands on the stack, PUTINDADDR addresses the element named by the indexes taken top first |
| Steps.ElementAddressReaches | vm.cpp:446-475 | the element address of a successful lookup reaches an element whose indexes are the operands' values |
| Steps.PutIndAddrIndexOrder | vm.cpp:456-463 | for an array declared with index types i then s and indexes pushed in that order, the machine as written reports inconsistent index types while the corrected order runs |
| Steps.FetchAllValues | vm.cpp:456-463 | index operands that are values are read as those values |
| Steps.SubOnStringVariable | vm.cpp:1494-1495 | `x - "b"` with `x` holding "abc" pushes "ac" in both versions, and as written also leaves `x` holding "ac" |
| Steps.SubOnStringValue | vm.cpp:1494-1495 | "abc" - "b" pushes "ac" |
| Steps.SubWritesLeft | vm.cpp:1464-1507 | SUB as executed has the status and stack of the corrected difference; a string variable on the left is left holding the difference, and nothing else changes |
| Steps.SubOfStrings | vm.cpp:1464-1507 | SUB of strings pushes a string |
| Steps.IterateSplit | vm.cpp:258 | running m + n steps is running m and then, unless the machine stopped, n more |
| Steps.RunSplit | vm.cpp:258 | the same for the machine's own step |
| Steps.RunAdvances | vm.cpp:258 | a run that reached a state after some of its steps goes on as the run from that state |
| Steps.RunStopped | vm.cpp:258 | once the machine has stopped, more fuel changes nothing |
| Steps.RunStopsAtEnd | vm.cpp:386-389 | a run stops for good with OK_STOP at an END or past the end of the code |
| VirtualMachine.Addressed | bytecode.h:692-699 | `makeAddresses` changes only the cells, and every variable entry of a known type gets a cell holding its type's default |
| VirtualMachine.Disposed | bytecode.h:701-708 | `disposeAddresses` changes only the cells, and every variable entry is left without one |
| VirtualMachine.VM.constructor | vm.h:196-213 | a new machine has an empty operand stack and no frames |
| VirtualMachine.VM.Init | vm.cpp:245-248 | `init` clears the operand stack and leaves the frames |
| VirtualMachine.VM.Push | vm.h:196-213 | pushing appends to the operand stack and changes nothing else |
| VirtualMachine.VM.Pop | vm.h:196-213 | popping returns the top element and removes exactly it |
| VirtualMachine.VM.Install | vm.h:196-213 | the machine's stack, frames and DATA section become those of the given state |
| VirtualMachine.VM.PopIndexes | vm.cpp:428-433 | the loop pops n indexes into a vector that lists them top first, the reverse of the pushed order |
| VirtualMachine.VM.PutIndAddr | vm.cpp:422-475 | PUTINDADDR leaves the machine in the state the as-written PUTINDADDR step gives |
| VirtualMachine.VM.Assignment | vm.cpp:533-1007 | MOVE and the compound assignments leave the state the assignment step gives |
| VirtualMachine.VM.Comparison | vm.cpp:1008-1263 | the comparisons leave the state the comparison step gives |
| VirtualMachine.VM.Arithmetic | vm.cpp:1311-1507 | MUL, DIV, ADD and SUB leave the state the as-written arithmetic step gives |
| VirtualMachine.VM.Negation | vm.cpp:1508-1536 | NEG leaves the state the NEG step gives |
| VirtualMachine.VM.JumpIfFalse | vm.cpp:1264-1298 | JUMPIFFALSE leaves the state and offset the step gives |
| VirtualMachine.VM.Call | vm.cpp:1541-1555 | CALL leaves the state and offset the CALL step gives |
| VirtualMachine.VM.Syscall | vm.cpp:1556-1638 | SYSCALL leaves the state the SYSCALL step gives |
| VirtualMachine.VM.Return | vm.cpp:1639-1696 | RETURN leaves the state and offset the RETURN step gives |
| VirtualMachine.VM.AllocVar | vm.cpp:1711-1730 | ALLOCVAR leaves the state the ALLOCVAR step gives |
| VirtualMachine.VM.AllocVars | vm.cpp:1732-1764 | ALLOCVARS leaves the state the ALLOCVARS step gives |
| VirtualMachine.VM.PutAddr | vm.cpp:407-421 | PUTADDR leaves the state the PUTADDR step gives |
| VirtualMachine.VM.PutDAddr | vm.cpp:1766-1786 | PUTDADDR leaves the state the PUTDADDR step gives |
| VirtualMachine.VM.InitVar | vm.cpp:1697-1709 | INITVAR leaves the state the INITVAR step gives |
| VirtualMachine.VM.Dispatch | vm.cpp:393-1788 | the switch executes the decoded instruction as `Execute` says |
| VirtualMachine.VM.Operand | vm.cpp:394-532 | NOP, the section markers and the operand-pushing instructions execute as `Execute` says |
| VirtualMachine.VM.Operator | vm.cpp:533-1536 | the assignments, comparisons and arithmetic operators execute as `Execute` says |
| VirtualMachine.VM.Control | vm.cpp:1264-1786 | jumps, calls and the frame instructions execute as `Execute` says |
| VirtualMachine.VM.Interpret | vm.cpp:380-1791 | one `interpret` is one step of the machine, and it returns true exactly when the status is OK_RUN |
| VirtualMachine.VM.Execute | vm.cpp:251-265 | `execute` gives the static variables their cells, runs the loop from offset 0 with the outcome `Run` gives, then releases the cells; the code, jumps and function references are unchanged |
| VirtualMachine.VM.Loop | vm.cpp:257-258 | the loop from offset 0 ends in the outcome `Run` gives for the same fuel |
| VirtualMachine.VM.Advance | vm.cpp:258 | one turn of the loop uses fuel and keeps the run's outcome: the run from the start equals the run from the new state, or is the stop just reached |

## Left out

- Datatypes.FreshCell: the source allocates an int, float or boolean cell without initialising it (bytecode.cpp:105-112); the model fixes that content to 0, 0.0 and false, which only a cell ALLOCVAR puts on the call stack (vm.cpp:1722) can show.
- Machine.Step: where the source has undefined behaviour the model stops with the `ExecError` status, which the source declares but never sets. That covers popping an empty operand stack, a DATA or frame index out of range, an operand cut off by the end of the code, and an unknown opcode byte that does not decode. PUTINDADDR with more indexes than the array has index types reads past the end of the `std::vector<char>` that `getIndexDatatypes` returns (vm.cpp:457, array.cpp:534); the model reads `'\0'` there, which no operand matches, so it reports inconsistent index types. Compiled code never gets there, because `process_array_datatype` (parser.cpp:707-715) checks the index types.
- Encoding.Wrap64: signed 64-bit overflow is undefined in C++; the model wraps two's-complement, the behaviour of the compilers the source targets.
- Machine.Binary: `long double` is modelled as an exact `real`, so rounding, infinities and NaN are not modelled.
- Instructions.Decode: code offsets and DATA indexes are `nat`, and only the stored words are reduced modulo 2^32, so an offset at or beyond 2^32 is not modelled.
- Arrays.MakeIndex: when the searched value is an integer and the index type is float, the source reads the integer's bytes as a `long double` (array.cpp:575-576); the model converts the integer's value instead.
- Arrays.ArrayTypeParts: on a type string shorter than three characters, or one whose element part starts past its end, `substr` throws `std::out_of_range`; the model yields no index types and an empty element type.
- Grammar.Parser.IntegerOrBoolean: `std::stoll` throws `std::out_of_range` on an integer literal of 2^63 or more (parser.cpp:470), and nothing catches it, so the compiler ends; the model instead fails the rule with FAIL_STOP and the cursor put back, an ordinary parse error.
- Grammar.Parser.NumberLiteral: `std::stold` throws on a float literal beyond the range of `long double` (parser.cpp:462), again uncaught; the model has no range for floats and emits PUTFLOAT with whatever image the `floatImage` parameter gives.
- Grammar.Parser.FunctionType: a function defined without `of` leaves `fun_var_pos` uninitialised and passes it to `RETURN` (parser.cpp:1891, 1936); the model uses 0.
- Datatypes.DisposeAddress: the source frees an array cell only when the type string is exactly "a" (bytecode.cpp:171), which leaks the others; the model has no heap, so every cell is simply released.
- Datatypes.Copy: `Datatype::operator==` compares only the `datatype` pointers, ignoring name and scope (bytecode.cpp:45-48); the model has no pointers, and nothing in the core compares entries. The source leaves `callstack_pos` uninitialised in every constructor and in the copy constructor (bytecode.cpp:7-35); `NewEntry`, `NewDynamicEntry`, `NewFunctionEntry` and `Copy` set it to 0, and in compiled code ALLOCVAR sets it before the machine reads it.
- Arrays.Merge: `Array::operator+=`, `Arrays.Array.GetDatatypeString` and `Arrays.Array.AddAssign` use the corrected `Arrays.DatatypeString`, because the string the source builds depends on memory past a string literal (see Findings).
- Grammar.Parser.Mult: as in the source, `/` of two integer operands gets the integer type (`maxDatatype`, parser.cpp:993-998), while DIV pushes a float (vm.cpp:1376-1382); the model keeps both as written and proves nothing that ties them together.
- Machine.Run: the `while(interpret(...))` loop of `VM::execute` is run for at most a given number of instructions (fuel); a program that never stops is only ever observed up to that bound.
- Machine.SyscallStep: `sin` and `cos` of `<cmath>` are parameters of the environment (`Env`); their numerics are not modelled.
- Grammar.Parser.constructor: the 12-byte PUTFLOAT image `stold` and the memory layout produce for a float literal is a parameter of the parser, and the machine reads it back through another parameter; `long double`'s memory layout is not modelled.
- Machine.Execute: PUTMEMBERADDR is a no-op in the source (vm.cpp:476) and in the model; it is consumed as its opcode byte alone.
- Printing: `Bytecode::print`, `printVariables`, the `printf` calls of `VM::execute` and `Parser::parse` and the text of `ParseTrace` are output only and are not modelled. `parse` reports only success or failure, not the `EParseStatus` detail codes.
- Memory management: `new`, `delete` and the destructors that free cells become the absence of a cell in values; leaks, double frees and aliasing through raw pointers are not modelled, except the in-place cases listed under Findings.
- CodeEditor.cpp, DebugInspector.cpp and ConsoleApplication1.cpp are a Wt user interface and are not part of this model.

## Findings

| source | as written | input that shows it | evidently intended | confidence | as-written member | corrected member |
|---|---|---|---|---|---|---|
| vm.cpp:974 | MOVEDIV with a plain (non-address) divisor multiplies the target by it, also at vm.cpp:987 | `x /= 2` with float `x` holding 8.0 | the target is divided, 4.0 | not executed | Machine.MoveDivAsWrittenMultiplies | Machine.MoveDivDivides |
| vm.cpp:1494-1495 | SUB of strings runs `erase_all` on the left operand's own storage | `x - "b"` with the string variable `x` holding "abc" | "ac" is pushed and `x` still holds "abc" | not executed | Steps.SubOnStringVariable | Steps.ArithmeticPushes |
| vm.cpp:428-433 | PUTINDADDR pops the indexes top first and checks `indexes[0]` against the first index type, the reverse of the order the compiler pushes them in (parser.cpp:538-546) | `a[1, "k"]` for an array declared with index types i then s | indexes are checked in declaration order and the lookup succeeds | not executed | Steps.PutIndAddrIndexOrder | Machine.PutIndAddrStep |
| parser.cpp:1240 | the keyword operators `and`, `or` and `not` are matched without checking that a terminal follows, also at parser.cpp:822 and 1290 | `order`, whose first two letters are taken as the operator `or` | a keyword is matched only as a whole word | not executed | Grammar.KeywordAsWrittenMatchesInsideWord | Grammar.KeywordAtIsKeywordAsWritten |
| parser.cpp:1620-1640 | `type_declaration` keeps the cursor moved past a type keyword that no terminal follows | `intfloat x`, taken as the type `float` with the cursor past `intfloat` | the keyword is taken only when a terminal follows it | not executed | Lexer.TypeKeywordAsWrittenRunsTogether | Lexer.FirstMatchIsFirst |
| array.cpp:458-468 | `Array::operator=` clears the target before copying from the source, which is the same object when an array is assigned to itself | `a = a` for an array variable `a` | self-assignment leaves `a` unchanged | not executed | Arrays.SelfAssignmentEmpties | Arrays.Array.AssignChecked |
| array.cpp:646 | `getDatatypeString` adds a `char` to a string literal's address, appending whatever C string lies there instead of the separator and the type | `array [float] of float` against `array [int] of float` | "a [f] f" and "a [i] f", which are compatible | not executed | Arrays.DatatypeStringAsWrittenRejectsWidening | Arrays.ArrayTypePartsRoundTrip |
| parser.h:143-145 | `CodeLocation::operator+(int inc)` returns `CodeLocation(pos + inc, col + inc, row)` through the `(pos, row, col)` constructor, so the new row is the old column plus `inc` and the new column is the old row | row 1, column 2 moved by 0 characters lands on row 2, column 1 | the location moves along its own row and column | not executed | Symbols.PlusAsWrittenSwapsRowAndCol | Symbols.PlusAdditive |
