/** The names the code generator fills into detail/codegen/c0/runtime.h and
   runtime.c: constructor tags, record field selectors and the tables of
   their printable names.  Only `__RESERVED` and `___blob` have fixed
   values in the runtime; every other constant stands for a generated one
   and is given some distinct value here. */
module Symbols {
  import opened Words

  // ----- constructor tags (`@constructors@`) ---------------------------------

  const RESERVED: Word := 0
  const MEM: Word := 1
  const REG: Word := 2
  const SUM: Word := 3
  const SCALE: Word := 4
  const NEARABS: Word := 5
  const FARABS: Word := 6
  const REL8: Word := 7
  const REL16: Word := 8
  const REL32: Word := 9
  const REL64: Word := 10
  const IMM8: Word := 11
  const IMM16: Word := 12
  const IMM32: Word := 13
  const IMM64: Word := 14
  const ARITY0: Word := 15

  predicate IsRelative(t: Word) { t == REL8 || t == REL16 || t == REL32 || t == REL64 }

  predicate IsImmediate(t: Word) { t == IMM8 || t == IMM16 || t == IMM32 || t == IMM64 }

  /** The operand constructors the printer renders in a form of their own. */
  predicate IsOperandForm(t: Word) {
    t == MEM || t == REG || t == SUM || t == SCALE || t == NEARABS || t == FARABS
    || IsRelative(t) || IsImmediate(t)
  }

  // ----- record field selectors (`@fields@`) ---------------------------------

  /** `___blob`: the field of a decoder state that holds the input view. */
  const BlobField: Word := 0
  /** `___1`, `___2`: the two components of a pair. */
  const First: Word := 1
  const Second: Word := 2
  const SzField: Word := 3
  const SegmentField: Word := 4
  const OpndField: Word := 5
  const AField: Word := 6
  const BField: Word := 7
  const ImmField: Word := 8
  const TagField: Word := 9
  const Opnd1: Word := 10
  const Opnd2: Word := 11
  const Opnd3: Word := 12
  const Opnd4: Word := 13

  /** The operand selectors `___opnd1` .. `___opnd4`, in order. */
  const OperandFields: seq<Word> := [Opnd1, Opnd2, Opnd3, Opnd4]

  // ----- name tables (`@fieldnames@`, `@tagnames@`) --------------------------

  /** `__tagNames` (of length `__NTAGS`) and `__fieldNames` (of length
      `__NFIELDS`). */
  datatype Names = Names(tags: seq<string>, fields: seq<string>)

  const Unknown: string := "<unknown>"

  /** `__tagName(i)`: the name of constructor tag `i`, or `"<unknown>"` for
      an index at or beyond the table size. */
  function TagName(nm: Names, i: Word): (s: string)
    ensures i < |nm.tags| ==> s == nm.tags[i]
    ensures i >= |nm.tags| ==> s == Unknown
  {
    if i < |nm.tags| then nm.tags[i] else Unknown
  }

  /** `__fieldName(i)`: the name of field selector `i`, or `"<unknown>"`. */
  function FieldName(nm: Names, i: Word): (s: string)
    ensures i < |nm.fields| ==> s == nm.fields[i]
    ensures i >= |nm.fields| ==> s == Unknown
  {
    if i < |nm.fields| then nm.fields[i] else Unknown
  }
}
