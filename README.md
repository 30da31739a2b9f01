# The gdsl C runtime, modelled in Dafny

Decoders that gdsl generates in C link against a small object runtime, in
`detail/codegen/c0/runtime.h` and `detail/codegen/c0/runtime.c`. This
project models that runtime and proves what it promises:

- **The arena.** A fixed heap of `__RT_HEAP_SIZE` three-word slots. The bump
  pointer `hp` only moves down. References are slot addresses moved one
  header word forward (`__WRAP`).
- **Values.** The tagged values that live in the heap: integers, labels,
  closures, bit-vectors, constructor applications, records, blobs and ropes.
- **Records.** Built by `__RECORD_BEGIN`/`ADD`/`END`, read by the linear scan
  `__recordLookup`, and updated copy-on-write by
  `__recordCloneFields`/`__recordUpdate`/`__RECORD_END_UPDATE`.
- **Accessors.** `__CASETAG`, `__DECON`, `__isTrue`/`__isFalse`,
  `__isNil`, and the closure and rope macros.
- **Bit-vector primitives.** `__and`, `__concat`, `__equal`, `__not` and
  `__slice`.
- **Bitstream steps.** `__consume` and `__unconsume`, and the initial
  decoder state that `eval` builds.
- **The instruction printer.** `pretty`, `prettyOpnds`, `prettyMem`,
  `prettySum`, `prettyScale`, `prettyFac`, `prettyln`, and the name tables
  `__tagName`/`__fieldName`.

## How words, the heap and the outcomes are encoded

- **Addresses.** An address is a word count. Slot `k` starts at word `3k`,
  because `sizeof(__unwrapped_obj)` is 24 bytes. The header is one word, so
  a reference to slot `k` is `3k + 1` (`Objects.Wrap`, `Objects.RefTo`).
- **The arena.** `Memory.Arena` holds `heap: array<Slot>` and the bump
  pointer `hp`, a slot index from 0 to `HeapSize`. Every allocation macro
  is a method with a `modifies` clause.
- **The singletons.** `__UNIT`, `__TRUE` and `__FALSE` are static
  objects outside the arena. They are given the slot indices just above
  it, so that every reference stored in a slot points to a strictly
  higher slot (`Objects.WellFormed`). This ordering is what makes the
  printer's walk over the value graph terminate.
- **Words.** A `__word` is an `int` in `[0, 2^64)` and an `__int` is a
  signed 64-bit range. The C bit operators are written out
  arithmetically in `Bits`, and `sz + 1` on a `__word` wraps
  (`Words.WordInc`).
- **Failure.**
  - `__fatal` (an `abort()`) is `Result.Fail(Fatal(reason))`. Every
    fatal path of the source is a failure of this kind.
  - In the pure printer functions, reading a union member that the
    object does not have (C undefined behaviour) is
    `Fail(Undefined(reason))`. An example is `->z.value` of a size that
    is not an `__INT`.
  - In the methods, such reads are preconditions.
- **Generator holes.** The generator fills in `@constructors@`,
  `@fields@`, `@tagnames@` and `@fieldnames@`.
  - They are modelled as distinct constants in `Symbols`.
  - `___blob` keeps its value 0 and `__RESERVED` is 0.
  - The name tables are a parameter (`Symbols.Names`).
- **Printer output.** The printer returns the text it would print, instead
  of writing it to standard output.

## Model

| member | source | states |
|---|---|---|
| Objects.SlotAddr | detail/codegen/c0/runtime.h:198-201 | a slot index gives a slot-aligned address that gives the index back |
| Objects.WrapUnwrap | detail/codegen/c0/runtime.h:310-311 | `__UNWRAP(__WRAP(o)) == o` and `__WRAP(__UNWRAP(x)) == x`; wrapping a slot address points into that same slot |
| Objects.TagOf | detail/codegen/c0/runtime.h:312 | `__TAG` of a live reference reads a header slot, never raw bytes, and yields that header's tag |
| Objects.TagOfWritten | detail/codegen/c0/runtime.h:312 | `__TAG` of a freshly written slot reads back the header tag that was written |
| Objects.Singletons | detail/codegen/c0/runtime.c:13-26 | `__UNIT`, `__TRUE` and `__FALSE` are distinct static objects outside the heap: `__NIL`, and width-1 vectors with values 1 and 0 |
| Objects.Block | detail/codegen/c0/runtime.h:92-106 | a block of `n` field slots read as `n` (tag, payload) pairs in heap order |
| Objects.FieldBase | detail/codegen/c0/runtime.h:101-106 | a record's `fields` pointer lies above its header and starts a block of `sz` tagged slots |
| Objects.FieldSlot | detail/codegen/c0/runtime.h:353-360 | the first field slot carrying `field`: found exactly when `field` is among the record's tags, and it has that tag |
| Objects.Select | detail/codegen/c0/runtime.h:122-123 | `__RECORD_SELECT` succeeds exactly on a record holding the field and yields the first such payload; a missing field is fatal; a payload is live and points to a higher slot |
| Objects.CaseTag | detail/codegen/c0/runtime.h:400-411 | the int value for `__INT`, the constructor for `__TAGGED`, the vector for `__BV`; fatal for every other tag |
| Objects.Decon | detail/codegen/c0/runtime.h:393-398 | the payload of a `__TAGGED` object, otherwise the object itself |
| Objects.IsTrueIsIdentity | detail/codegen/c0/runtime.h:419-425 | `__isTrue`/`__isFalse` compare with the singletons by reference, so no heap object is true or false |
| Objects.IsNil | detail/codegen/c0/runtime.c:261-266 | `__TRUE` exactly for a `__NIL` object, otherwise `__FALSE` |
| Objects.IsNilFlag | detail/codegen/c0/runtime.c:268-273 | 1 or 0, agreeing with `__isNil` |
| Objects.LiveBvInWidth | detail/codegen/c0/runtime.h:151-161 | every bit-vector in a well-formed heap holds a value below `2^sz` |
| Objects.LiveFrame | detail/codegen/c0/runtime.h:16-18 | allocating lower slots never changes an object already live |
| Memory.Arena.constructor | detail/codegen/c0/runtime.c:4-5 | a fresh heap of `HeapSize` slots with `hp` at its top |
| Memory.Arena.Alloc1 | detail/codegen/c0/runtime.h:16 | `__ALLOC1` lowers `hp` by exactly one and returns the new `hp`; it touches nothing else |
| Memory.Arena.AllocN | detail/codegen/c0/runtime.h:18 | `__ALLOCN(n)` lowers `hp` by exactly `n` |
| Memory.Arena.Alloc0 | detail/codegen/c0/runtime.h:17 | `__ALLOC0` returns `hp` without moving it |
| Memory.Arena.ResetHeap | detail/codegen/c0/runtime.h:427-429 | `hp` goes back to the top of the heap |
| Memory.Arena.Push | detail/codegen/c0/runtime.h:16 | one slot is allocated and written; the heap changes only there |
| Memory.Arena.NewInt | detail/codegen/c0/runtime.h:45-54 | an `__INT` object holding the value |
| Memory.Arena.NewLabel | detail/codegen/c0/runtime.h:58-67 | a `__LABEL` object |
| Memory.Arena.NewBv | detail/codegen/c0/runtime.h:151-161 | a `__BV` object of the given width and value |
| Memory.Arena.NewTagged | detail/codegen/c0/runtime.h:165-175 | a `__TAGGED` object whose `__CASETAG` is the constructor and whose `__DECON` is the payload |
| Memory.Arena.NewBlob | detail/codegen/c0/runtime.h:182-192 | a `__BLOB` object holding the view |
| Memory.Arena.ClosureAdd | detail/codegen/c0/runtime.h:74-76 | a copy of the captured object's slot in one new slot |
| Memory.Arena.ClosureEnd | detail/codegen/c0/runtime.h:78-83 | a `__CLOSURE` header with `sz = n` whose `env` is the slot just above it |
| Memory.Arena.BuildClosure | detail/codegen/c0/runtime.h:71-83 | `n` adds and an end: `n + 1` slots; `env[i]` holds a copy of the `i`-th captured value counted from the last one added |
| Memory.ClosureRef | detail/codegen/c0/runtime.h:85 | `__CLOSURE_REF(c, n)` is a live reference into slot `env + n`, above the closure |
| Memory.Arena.RopeConcat | detail/codegen/c0/runtime.h:129-133 | a `__ROPEBRANCH` of the two ropes |
| Memory.RopeLeafSlots | detail/codegen/c0/runtime.h:137-139 | the number of slots is `len / 24` rounded up: the least `n` with `24n >= len` |
| Memory.Strlen | detail/codegen/c0/runtime.h:137 | `strlen`: the index of the first NUL byte; every byte before it is non-zero |
| Memory.Arena.RopeFromString | detail/codegen/c0/runtime.h:135-144 | for `len = strlen(cs)`, a `__ROPELEAF` header with `sz = len` over `RopeLeafSlots(len)` slots below it that hold the `len` bytes before the terminator, 24 to a slot; the slots above are unchanged |
| Memory.Arena.CopyChunks | detail/codegen/c0/runtime.h:142-143 | the `memcpy` into the leaf: slots `pk ..` hold the successive 24-byte chunks of the bytes, every other slot is unchanged |
| Memory.ChunkAt | detail/codegen/c0/runtime.h:142-143 | byte `b` of the string lands in byte `b % 24` of slot `b / 24` |
| Memory.Arena.CopySlots | detail/codegen/c0/runtime.h:388 | the `memcpy` of `n` slots: the destination gets the source's slots and nothing else changes |
| Records.RecordAdd | detail/codegen/c0/runtime.h:95-99 | one `__TAGGED` field slot directly below the previous one |
| Records.RecordEnd | detail/codegen/c0/runtime.h:101-106 | a `__RECORD` header with `sz = n` and `fields = header + 1`, whose fields are the `n` slots above it |
| Records.BuildRecord | detail/codegen/c0/runtime.h:92-106 | `n` adds and an end take `n + 1` slots; the fields are the added pairs reversed, so the last one added is `fields[0]` |
| Records.SelectBuilt | detail/codegen/c0/runtime.h:92-106 | selecting from a built record succeeds exactly for an added tag and yields the value added last for it |
| Records.RecordLookup | detail/codegen/c0/runtime.h:353-365 | the linear scan returns the first of the `sz` field slots with the tag; if none has it the call is fatal |
| Records.CloneFields | detail/codegen/c0/runtime.h:385-389 | `sz` fresh slots below `hp` hold a copy of the source's fields |
| Records.BeginUpdate | detail/codegen/c0/runtime.h:108-110 | clones the fields and starts the count at the source's `sz` |
| Records.RecordUpdate | detail/codegen/c0/runtime.h:367-383 | a tag already among `fields[0..n)` has its first occurrence's payload overwritten, returns 0 and keeps `hp`; any other tag gets one new `__TAGGED` slot below the block and returns 1; either way the block becomes `Update(block, tag, value)` |
| Records.UpdateInPlace | detail/codegen/c0/runtime.h:369-375 | overwriting the first match keeps the heap well-formed and is `Update` on the field list |
| Records.UpdateByPush | detail/codegen/c0/runtime.h:377-382 | pushing a missing tag keeps the heap well-formed and is `Update` on the field list |
| Records.UpdateRecord | detail/codegen/c0/runtime.h:108-120 | clone, updates and end: the new record's fields are `UpdateAll(source fields, updates)`; its `sz` is the old `sz` plus the number of new tags; the source record's header and fields are unchanged |
| Records.SelectUpdated | detail/codegen/c0/runtime.h:108-123 | selecting from an updated record yields the last value the updates gave the tag, and otherwise the source's first payload for it |
| Fields.Update | detail/codegen/c0/runtime.h:367-383 | the field-list effect of `__recordUpdate`: the first occurrence is replaced, or a new pair is put in front |
| Fields.LookupUpdateSame | detail/codegen/c0/runtime.h:367-383 | after updating T with V, looking up T yields V |
| Fields.LookupUpdateOther | detail/codegen/c0/runtime.h:367-383 | after updating T, every other tag looks up the same as before |
| Fields.UpdateIdempotent | detail/codegen/c0/runtime.h:367-383 | updating T with V twice gives the same fields as updating once |
| Fields.SizeUpdateAll | detail/codegen/c0/runtime.h:108-120 | the updated record's size is the old size plus the number of tags not present before |
| Fields.LookupReverse | detail/codegen/c0/runtime.h:95-106 | for distinct tags, looking up in the reversed list of additions is the same as looking up in the list of additions |
| Fields.LookupReverseSnoc | detail/codegen/c0/runtime.h:95-106 | in the reversed list of additions the pair added last is looked at first: it wins if it has the tag, and otherwise the lookup goes on in the earlier additions |
| Fields.LookupReverseLast | detail/codegen/c0/runtime.h:95-106 | for any additions, a tag finds in the reversed list the payload of the last pair added with that tag |
| Bits.Mask | detail/codegen/c0/runtime.c:74 | the intended mask `2^sz - 1`; the C `int` shift as written agrees with it only for `sz <= 30` (see `Bits.IntMask`) |
| Bits.IntMask | detail/codegen/c0/runtime.c:74 | `(1 << sz) - 1` on a 32-bit `int` is defined exactly when `0 <= sz <= 30`, and then equals `Mask(sz)` |
| Bits.And | detail/codegen/c0/runtime.c:38-47 | a new vector of `a`'s width holding `a & b` |
| Bits.BitAnd | detail/codegen/c0/runtime.c:44 | `a & b` is at most each operand |
| Bits.AndMask | detail/codegen/c0/runtime.c:137 | `x & (2^k - 1)` is `x mod 2^k` |
| Bits.Concat | detail/codegen/c0/runtime.c:49-60 | a new vector of width `sz(a) + sz(b)` holding `(a << sz(b)) \| b`, which is `a * 2^sz(b) + b` |
| Bits.ConcatValue | detail/codegen/c0/runtime.c:57 | for in-width operands the shifted or is the sum `a * 2^sz(b) + b` and fits the combined width |
| Bits.ConcatVec | detail/codegen/c0/runtime.c:57 | `(a << szb) \| b` on 64-bit words: when `b` fits `szb` bits and the shift loses no bits of `a`, the result is `a * 2^szb + b` |
| Bits.SliceConcat | detail/codegen/c0/runtime.c:49-60 | slicing a concatenation at `sz(b)` gives back both halves |
| Bits.ConcatSlices | detail/codegen/c0/runtime.c:49-60 | concatenating the high and low slices of an in-width value gives it back |
| Bits.ByteFromNibbles | detail/codegen/c0/runtime.c:49-60 | `concat(slice(0b10110010, 4, 4), slice(0b10110010, 0, 4))` is `0b10110010` |
| Bits.Equal | detail/codegen/c0/runtime.c:62-67 | the `__TRUE` singleton exactly when the vectors are equal, otherwise `__FALSE`; widths are not compared |
| Bits.Not | detail/codegen/c0/runtime.c:69-77 | a new vector of `a`'s width holding `~a` masked to that width, which is `2^sz - 1 - a` |
| Bits.NotValue | detail/codegen/c0/runtime.c:74 | the masked complement of an in-width value is `mask - a` |
| Bits.NotNot | detail/codegen/c0/runtime.c:69-77 | `not` twice gives back any in-width value |
| Bits.NotVec | detail/codegen/c0/runtime.c:74 | the masked complement is below `2^sz` |
| Bits.NotAsWritten | detail/codegen/c0/runtime.c:74 | with the `int` shift as written, the value is defined only for `sz` up to 30 and then agrees with `NotVec` |
| Bits.NotAsWrittenUndefined | detail/codegen/c0/runtime.c:74 | for a 32-bit vector the written mask is undefined, while the intended value is `2^32 - 1 - a` |
| Bits.Slice | detail/codegen/c0/runtime.c:133-143 | a new vector of width `sz` holding `(tok >> offs) mod 2^sz` |
| Bits.SliceVec | detail/codegen/c0/runtime.c:137 | `(tok >> offs) & mask` is `(tok / 2^offs) mod 2^sz`, hence below `2^sz` |
| Bits.SliceAsWritten | detail/codegen/c0/runtime.c:137 | with the `int` shift as written, the value is defined only for `sz` up to 30 and then agrees with `SliceVec` |
| Bits.SliceAsWrittenUndefined | detail/codegen/c0/runtime.c:137 | a 32-bit slice is undefined as written, while the intended value is `(tok / 2^offs) mod 2^32` |
| Bits.Raise | detail/codegen/c0/runtime.c:79-84 | `__raise` is always fatal |
| Bits.Halt | detail/codegen/c0/runtime.c:145-147 | `__halt` returns its argument |
| Words.AsWord | detail/codegen/c0/runtime.h:403 | the `(__word)` cast of an `__int` is congruent to it mod `2^64`: the same for non-negative values, at least `2^63` for negative ones |
| Words.WordInc | detail/codegen/c0/runtime.c:92 | `sz + 1` on a `__word` is congruent to `sz + 1` and equal to it below the top |
| Stream.RetreatAdvance | detail/codegen/c0/runtime.c:92 | widening a narrowed view gives back the same position and length |
| Stream.AdvanceRetreat | detail/codegen/c0/runtime.c:119 | narrowing a widened view gives it back, except for the length `2^64 - 1`, whose increment wraps to 0 |
| Stream.Field | detail/codegen/c0/runtime.h:122-123 | `__RECORD_SELECT` of a present field is live and the first payload for it |
| Stream.Consume | detail/codegen/c0/runtime.c:106-131 | succeeds exactly when the state has a `___blob` with a non-empty view; a missing field or an empty view is fatal and changes nothing; on success exactly `|fields| + 6` slots are allocated and the result is a pair whose `___1` is an 8-bit vector holding `*buf` and whose `___2` is the state with only its view replaced by `(buf + 1, sz - 1)` |
| Stream.ConsumeByte | detail/codegen/c0/runtime.c:112-130 | the allocating part of `__consume` for a non-empty view |
| Stream.TakeByte | detail/codegen/c0/runtime.c:112-120 | an 8-bit vector holding the first byte and the narrowed view, in two new slots |
| Stream.Unconsume | detail/codegen/c0/runtime.c:86-104 | succeeds exactly when the state has a `___blob`; a missing field is fatal and changes nothing; on success exactly `|fields| + 5` slots are allocated and the result is a pair whose `___1` is `__UNIT` and whose `___2` is the state with only its view replaced by `(buf - 1, sz + 1)` |
| Stream.UnconsumeStep | detail/codegen/c0/runtime.c:88-103 | the allocating part of `__unconsume` |
| Stream.FinishStep | detail/codegen/c0/runtime.c:121-130 | the clone-update-end and the pair: a pair of `first` and the state with the new view |
| Stream.CloneWithView | detail/codegen/c0/runtime.c:121-124 | the state's fields with `___blob` updated to the new view |
| Stream.MakePair | detail/codegen/c0/runtime.c:125-129 | a two-field record with `___1` and `___2`, the second record unchanged |
| Stream.UnconsumeAfterConsume | detail/codegen/c0/runtime.c:86-131 | `__unconsume` applied to the `___2` of a successful `__consume(s)` gives a state with the same view as `s` and the same other fields |
| Stream.InitialState | detail/codegen/c0/runtime.c:169-177 | the state that `eval` builds: a one-field record whose `___blob` views the whole input |
| Stream.StateFrame | detail/codegen/c0/runtime.c:86-131 | a state keeps its fields and view while lower slots are allocated |
| Symbols.TagName | detail/codegen/c0/runtime.c:188-193 | the table entry below the table size, `"<unknown>"` at or beyond it |
| Symbols.FieldName | detail/codegen/c0/runtime.c:181-186 | the table entry below the table size, `"<unknown>"` at or beyond it |
| Numerals.Digits | detail/codegen/c0/runtime.c:419 | the `%zx` digits: at least one, no leading zero except for 0 itself, each a valid digit |
| Numerals.HexRoundTrip | detail/codegen/c0/runtime.c:419 | the hexadecimal numeral reads back as the value |
| Numerals.Decimal | detail/codegen/c0/runtime.c:422 | the `%ld` numeral starts with `-` exactly for a negative value |
| Numerals.DecimalRoundTrip | detail/codegen/c0/runtime.c:422 | the decimal numeral reads back as the value |
| Numerals.DecimalInjective | detail/codegen/c0/runtime.c:298 | different sizes give different `PTR(sz)` numerals |
| Pretty.SizePrefix | detail/codegen/c0/runtime.c:281-300 | `BYTE/WORD/DWORD/QWORD/DQWORD PTR ` exactly for 8/16/32/64/128, `PTR(sz) ` otherwise |
| Pretty.SizePrefixInjective | detail/codegen/c0/runtime.c:281-300 | different sizes print different prefixes |
| Pretty.PrettyFac | detail/codegen/c0/runtime.c:316-325 | `""`, `2*`, `4*`, `8*` for factors 0 to 3, that is `2^c*`; any other factor or non-caseable object is fatal |
| Pretty.PrettyMem | detail/codegen/c0/runtime.c:277-306 | prints exactly when `___sz` is an integer and `___segment`, `___opnd` are there and print; the text is the size prefix, the segment, `:[`, the operand and `]`; a size that is not an integer is undefined |
| Pretty.PrettySum | detail/codegen/c0/runtime.c:308-314 | prints exactly when `___a` and `___b` are there and print, and then prints `a+b` |
| Pretty.PrettyScale | detail/codegen/c0/runtime.c:327-332 | prints exactly when `___imm` is a valid factor and `___opnd` prints, and then prints the factor followed by the operand |
| Pretty.PrettyOpnds | detail/codegen/c0/runtime.c:334-427 | a vector prints as `0x` and its hex digits, an integer in decimal; any object that is not a constructor application, record, vector or integer is fatal |
| Pretty.RegisterTransparent | detail/codegen/c0/runtime.c:342-364 | a `__REG` operand (lines 342-343) and an `__IMM8`..`__IMM64` operand (lines 360-364) print exactly as their payload |
| Pretty.StructuredOperand | detail/codegen/c0/runtime.c:340-347 | `__MEM`, `__SUM` and `__SCALE` operands print as `prettyMem`, `prettySum` and `prettyScale` of their payload |
| Pretty.AddressOperand | detail/codegen/c0/runtime.c:348-359 | `__NEARABS`, `__FARABS` and `__REL8`..`__REL64` operands print `NEAR `, `FAR ` or `RELATIVE ` followed by their payload, and fail when it fails |
| Pretty.ConstructorOperand | detail/codegen/c0/runtime.c:365-371 | any other constructor prints its tag name alone when its payload is `__NIL`, and otherwise the name, a comma and the payload |
| Pretty.BvReadsBack | detail/codegen/c0/runtime.c:418-420 | a printed vector is `0x` followed by a numeral that reads back as the vector |
| Pretty.IntReadsBack | detail/codegen/c0/runtime.c:421-423 | a printed integer reads back as the integer |
| Pretty.PrettyRecord | detail/codegen/c0/runtime.c:374-417 | a record whose size is not 1 to 5 is fatal |
| Pretty.OperandCount | detail/codegen/c0/runtime.c:375-413 | sizes 1 and 2 print one operand, sizes 3, 4 and 5 print 2, 3 and 4 |
| Pretty.SelectAll | detail/codegen/c0/runtime.c:377-405 | one selected payload per field, each live and of lower rank |
| Pretty.SelectAllFields | detail/codegen/c0/runtime.c:377-405 | succeeds exactly when every field is there, and then yields exactly the selected payloads |
| Pretty.RecordOperands | detail/codegen/c0/runtime.c:374-417 | a record of size 1 to 5 prints its first `OperandCount(sz)` operands `___opnd1..4`, comma-separated |
| Pretty.JoinOpnds | detail/codegen/c0/runtime.c:384-413 | printing a list of operands separated by `,` succeeds exactly when every operand prints |
| Pretty.JoinOpndsText | detail/codegen/c0/runtime.c:384-413 | the text printed for a list of operands is their texts joined with `,` |
| Pretty.PayloadOf | detail/codegen/c0/runtime.c:432 | the payload of an instruction is live |
| Pretty.Pretty | detail/codegen/c0/runtime.c:429-446 | a non-`__TAGGED` instruction is fatal; a tagged one prints exactly when its opcode is found and, unless it is `__ARITY0`, its operands print; an `__ARITY0` one prints only the mnemonic taken from its payload's `___tag`, any other the mnemonic, a space and the operands |
| Pretty.Opcode | detail/codegen/c0/runtime.c:433 | succeeds exactly when the payload has a `___tag` field whose value can be cased on, and is then its `__CASETAG`; a missing field fails as the lookup does |
| Pretty.Prettyln | detail/codegen/c0/runtime.c:448-452 | prints exactly what `pretty` prints, then a newline, and fails exactly when it fails |

## Left out

- **Output.** `printf`, `vfprintf` and `abort` are left out. The model
  returns the text, or the failure that stops the print. The text a C run
  prints before it aborts is not modelled.
- **Diagnostics.** `__print`, `__println`, `__traceln` and `__printState`
  print raw pointers with `%p` and are for diagnostics only, so they are
  left out. The message that `__raise` prints before it aborts is also
  left out.
- **Continuation calls.** The `__INVOKE1`..`__INVOKE7` function-pointer
  casts and the native call made by `__runWithState`/`eval` are left out.
  The decoder is an opaque generated function. Only `eval`'s initial state
  (`Stream.InitialState`) and `__halt` are modelled.
- **Demo harnesses and prototypes.** Left out as test plumbing: the
  `WITHMAIN` block, `decode`, and the older demo in `detail/codegen/runtime.c`.
  Left out because their bodies are not shown: the prototypes declared in
  `runtime.h` (`__consume8`, `__sx`, `__zx`, `__concatstring` and the
  others).
- **Generator holes.** Constructor tags, field selectors and the name tables
  are filled in by the code generator. They are distinct constants with
  arbitrary values and a `Names` parameter.
- **Byte-level copies.** The `memcpy` of a string into rope slots is
  modelled as raw byte chunks, 24 to a slot. The `memcpy` of field slots
  is a slot-wise copy. The caller's input buffer is a byte sequence with
  an offset.
- **Heap overflow.** `__CHECK_HEAP` is a TODO in the source. Every allocation
  therefore requires enough free slots below `hp`.
- **Reading the wrong union member.** This is undefined in C.
  - In the methods it is excluded by preconditions. Examples are
    `__consume` on a non-record state, and `__and` on an object that is
    not a vector.
  - In the printer it is an `Undefined` failure. Examples are
    `prettyMem` of a size that is not an `__INT`, and `__RECORD_SELECT`
    on an object that is not a record.
- **Records.RecordLookup.** The fatal message is `"record-field not found"`.
  The source formats the field's name (or its number for an index at or
  beyond `__NFIELDS`) into the message; that text is not modelled.
- **Bits.Concat.** It requires `sz(b) < 64` and `sz(a) + sz(b) <= 64`. A
  shift by 64 or more is undefined in C, and a wider result cannot be
  stored in a `__word`.
- **Bits.Not and Bits.Slice.** They use the intended mask `2^sz - 1`, not
  the `int` shift as written (see Findings). `Bits.Slice` also requires
  `0 <= offs < 64` and `0 <= sz <= 64`.
- **Memory.Arena.ClosureAdd.** `*o = *(__UNWRAP(value))` (runtime.h:74-76) copies a
  whole 24-byte slot. When `value` is `__UNIT`, the source of the copy is the
  8-byte `struct __unwrapped_immediate` (runtime.c:13-14), so the C code reads
  16 bytes past that object. The model copies a bare `Nil` slot instead. This is
  harmless, because nothing ever reads the payload of a `__NIL` slot.
  Not executed.
- **Stream.Consume.** It requires that the first byte of a non-empty view
  lies inside the caller's buffer. The source reads `*buf` unchecked.

## Findings

| source | as written | input that shows it | evidently intended | confidence | as-written member | corrected member |
|---|---|---|---|---|---|---|
| detail/codegen/c0/runtime.c:74 | `~a & ((1 << sz) - 1)` shifts the `int` 1, which is undefined (or yields a wrong mask) for `sz >= 31` | `__not` of a 32-bit vector, `sz = 32` | the mask `2^sz - 1` of a 64-bit word, so the result is `2^32 - 1 - a` | not executed | Bits.NotAsWrittenUndefined | Bits.NotVec |
| detail/codegen/c0/runtime.c:137 | `(tok >> offs) & ((1 << sz) - 1)` shifts the `int` 1, undefined for `sz >= 31` | `__slice(tok, 0, 32)` | the low `sz` bits, `(tok / 2^offs) mod 2^sz` | not executed | Bits.SliceAsWrittenUndefined | Bits.SliceVec |
