/** The instruction printer of detail/codegen/c0/runtime.c (`pretty`,
   `prettyOpnds`, `prettyMem`, `prettySum`, `prettyScale`, `prettyFac`).
   The C functions write to standard output with `printf` and abort on a
   fatal error; here each returns the text it would print, or the failure
   that stops it.  The walk follows references down the arena, so it
   terminates on the rank of the value. */
module Pretty {
  import opened Words
  import opened Outcome
  import opened Fields
  import opened Objects
  import opened Symbols
  import opened Numerals

  // ----- leaves --------------------------------------------------------------

  /** The `printf` of `prettyMem` for the access size `sz`. */
  function SizePrefix(sz: I64): (s: string)
    ensures |s| > 0 && s[|s| - 1] == ' '
    ensures sz in {8, 16, 32, 64, 128} <==> s[0] != 'P'
  {
    if sz == 8 then "BYTE PTR "
    else if sz == 16 then "WORD PTR "
    else if sz == 32 then "DWORD PTR "
    else if sz == 64 then "QWORD PTR "
    else if sz == 128 then "DQWORD PTR "
    else "PTR(" + Decimal(sz) + ") "
  }

  /** `prettyFac`: the scale `2^c*` of an index register for `c` in 0..3
      (nothing for `c = 0`); any other factor is fatal. */
  function PrettyFac(mem: seq<Slot>, hp: int, imm: Obj): (r: Result<string>)
    requires WellFormed(mem, hp) && Live(mem, hp, imm)
    ensures r.Ok? <==> CaseTag(mem, hp, imm).Ok? && CaseTag(mem, hp, imm).value <= 3
    ensures r.Ok? ==> var c := CaseTag(mem, hp, imm).value;
                      r.value == if c == 0 then "" else Decimal(Pow2(c)) + "*"
    ensures r.Fail? ==> r.IsFatal()
  {
    var c :- CaseTag(mem, hp, imm);
    FactorNames();
    if c == 0 then Ok("")
    else if c == 1 then Ok("2*")
    else if c == 2 then Ok("4*")
    else if c == 3 then Ok("8*")
    else Fail(Fatal("invalid scaling factor"))
  }

  /** `pre` followed by whatever `r` prints, if it prints. */
  function Prefixed(pre: string, r: Result<string>): Result<string> {
    var s :- r;
    Ok(pre + s)
  }

  // ----- the walk ------------------------------------------------------------

  /** `prettyOpnds`: an operand tree. */
  function PrettyOpnds(mem: seq<Slot>, hp: int, nm: Names, x: Obj): (r: Result<string>)
    requires WellFormed(mem, hp) && Live(mem, hp, x)
    ensures Load(mem, x).Bv? ==> r == Ok("0x" + Hex(Load(mem, x).vec))
    ensures Load(mem, x).Int? ==> r == Ok(Decimal(Load(mem, x).value))
    ensures TagOf(mem, hp, x) !in {TAGGED, RECORD, BV, INT} ==> r == Fail(Fatal("invalid operand"))
    decreases Rank(x), 2, 0
  {
    match Load(mem, x)
    case Tagged(tag, p) =>
      PayloadBelow(mem, hp, x);
      if tag == MEM then PrettyMem(mem, hp, nm, p)
      else if tag == REG then PrettyOpnds(mem, hp, nm, p)
      else if tag == SUM then PrettySum(mem, hp, nm, p)
      else if tag == SCALE then PrettyScale(mem, hp, nm, p)
      else if tag == NEARABS then Prefixed("NEAR ", PrettyOpnds(mem, hp, nm, p))
      else if tag == FARABS then Prefixed("FAR ", PrettyOpnds(mem, hp, nm, p))
      else if IsRelative(tag) then Prefixed("RELATIVE ", PrettyOpnds(mem, hp, nm, p))
      else if IsImmediate(tag) then PrettyOpnds(mem, hp, nm, p)
      else if TagOf(mem, hp, p) == NIL then Ok(TagName(nm, tag))
      else Prefixed(TagName(nm, tag) + ",", PrettyOpnds(mem, hp, nm, p))
    case Record(_, _) => PrettyRecord(mem, hp, nm, x)
    case Bv(_, vec) => Ok("0x" + Hex(vec))
    case Int(v) => Ok(Decimal(v))
    case _ => Fail(Fatal("invalid operand"))
  }

  /** The `__RECORD` case of `prettyOpnds`: the operands `___opnd1` ..
      `___opnd4` of an instruction record, selected first and then printed
      comma-separated; sizes 1 and 2 print one operand, size `n` in 3..5
      prints `n - 1`, and any other size is fatal. */
  function PrettyRecord(mem: seq<Slot>, hp: int, nm: Names, x: Obj): (r: Result<string>)
    requires WellFormed(mem, hp) && Live(mem, hp, x) && Load(mem, x).Record?
    ensures !(1 <= Load(mem, x).sz <= 5) ==> r == Fail(Fatal("unsupported amount of operands"))
    decreases Rank(x), 1, 0
  {
    var sz := Load(mem, x).sz;
    if !(1 <= sz <= 5) then Fail(Fatal("unsupported amount of operands"))
    else
      var fs := if sz <= 2 then [Opnd1]
                else if sz == 3 then [Opnd1, Opnd2]
                else if sz == 4 then [Opnd1, Opnd2, Opnd3]
                else [Opnd1, Opnd2, Opnd3, Opnd4];
      var os :- SelectAll(mem, hp, x, fs);
      JoinOpnds(mem, hp, nm, os, Rank(x))
  }

  /** The operands `os` printed one after the other, separated by commas;
      each is of rank below `bound`. */
  function JoinOpnds(mem: seq<Slot>, hp: int, nm: Names, os: seq<Obj>, bound: nat): (r: Result<string>)
    requires WellFormed(mem, hp)
    requires forall i :: 0 <= i < |os| ==> Live(mem, hp, os[i]) && Rank(os[i]) < bound
    ensures r.Ok? <==> forall i :: 0 <= i < |os| ==> PrettyOpnds(mem, hp, nm, os[i]).Ok?
    decreases bound, 0, |os|
  {
    if |os| == 0 then Ok("")
    else
      var s :- PrettyOpnds(mem, hp, nm, os[0]);
      if |os| == 1 then Ok(s)
      else
        var t :- JoinOpnds(mem, hp, nm, os[1..], bound);
        Ok(s + "," + t)
  }

  /** `prettyMem`: a memory operand record `{___sz, ___segment, ___opnd}`,
      printed as the size prefix, then `segment:[opnd]`.  The size is read
      as an integer right after it is selected. */
  function PrettyMem(mem: seq<Slot>, hp: int, nm: Names, m: Obj): (r: Result<string>)
    requires WellFormed(mem, hp) && Live(mem, hp, m)
    ensures Select(mem, hp, m, SzField).Ok? && !Load(mem, Part(mem, hp, m, SzField)).Int? ==>
              r == Fail(Undefined("memory operand size is not an integer"))
    ensures r.Ok? <==>
              && Select(mem, hp, m, SzField).Ok? && Load(mem, Part(mem, hp, m, SzField)).Int?
              && Select(mem, hp, m, SegmentField).Ok? && Select(mem, hp, m, OpndField).Ok?
              && PrettyOpnds(mem, hp, nm, Part(mem, hp, m, SegmentField)).Ok?
              && PrettyOpnds(mem, hp, nm, Part(mem, hp, m, OpndField)).Ok?
    ensures r.Ok? ==>
              r.value == SizePrefix(Load(mem, Part(mem, hp, m, SzField)).value)
                         + PrettyOpnds(mem, hp, nm, Part(mem, hp, m, SegmentField)).value
                         + ":[" + PrettyOpnds(mem, hp, nm, Part(mem, hp, m, OpndField)).value + "]"
    decreases Rank(m), 0, 0
  {
    SelectBelow(mem, hp, m, SegmentField);
    SelectBelow(mem, hp, m, OpndField);
    var so :- Select(mem, hp, m, SzField);
    if !Load(mem, so).Int? then Fail(Undefined("memory operand size is not an integer"))
    else
      var segment :- Select(mem, hp, m, SegmentField);
      var opnd :- Select(mem, hp, m, OpndField);
      var s1 :- PrettyOpnds(mem, hp, nm, segment);
      var s2 :- PrettyOpnds(mem, hp, nm, opnd);
      Ok(SizePrefix(Load(mem, so).value) + s1 + ":[" + s2 + "]")
  }

  /** `prettySum`: `a+b` for a record `{___a, ___b}`. */
  function PrettySum(mem: seq<Slot>, hp: int, nm: Names, s: Obj): (r: Result<string>)
    requires WellFormed(mem, hp) && Live(mem, hp, s)
    ensures r.Ok? <==>
              && Select(mem, hp, s, AField).Ok? && Select(mem, hp, s, BField).Ok?
              && PrettyOpnds(mem, hp, nm, Part(mem, hp, s, AField)).Ok?
              && PrettyOpnds(mem, hp, nm, Part(mem, hp, s, BField)).Ok?
    ensures r.Ok? ==>
              r.value == PrettyOpnds(mem, hp, nm, Part(mem, hp, s, AField)).value + "+"
                         + PrettyOpnds(mem, hp, nm, Part(mem, hp, s, BField)).value
    decreases Rank(s), 0, 0
  {
    SelectBelow(mem, hp, s, AField);
    SelectBelow(mem, hp, s, BField);
    var a :- Select(mem, hp, s, AField);
    var b :- Select(mem, hp, s, BField);
    var sa :- PrettyOpnds(mem, hp, nm, a);
    var sb :- PrettyOpnds(mem, hp, nm, b);
    Ok(sa + "+" + sb)
  }

  /** `prettyScale`: the factor, then the scaled operand, for a record
      `{___imm, ___opnd}`. */
  function PrettyScale(mem: seq<Slot>, hp: int, nm: Names, s: Obj): (r: Result<string>)
    requires WellFormed(mem, hp) && Live(mem, hp, s)
    ensures r.Ok? <==>
              && Select(mem, hp, s, ImmField).Ok? && Select(mem, hp, s, OpndField).Ok?
              && PrettyFac(mem, hp, Part(mem, hp, s, ImmField)).Ok?
              && PrettyOpnds(mem, hp, nm, Part(mem, hp, s, OpndField)).Ok?
    ensures r.Ok? ==>
              r.value == PrettyFac(mem, hp, Part(mem, hp, s, ImmField)).value
                         + PrettyOpnds(mem, hp, nm, Part(mem, hp, s, OpndField)).value
    decreases Rank(s), 0, 0
  {
    SelectBelow(mem, hp, s, OpndField);
    var imm :- Select(mem, hp, s, ImmField);
    var op :- Select(mem, hp, s, OpndField);
    var f :- PrettyFac(mem, hp, imm);
    var so :- PrettyOpnds(mem, hp, nm, op);
    Ok(f + so)
  }

  /** The payload of field `f` of record `r`, which is there. */
  function Part(mem: seq<Slot>, hp: int, r: Obj, f: Word): (x: Obj)
    requires WellFormed(mem, hp) && Live(mem, hp, r) && Select(mem, hp, r, f).Ok?
    ensures Live(mem, hp, x) && Rank(x) < Rank(r) && Select(mem, hp, r, f) == Ok(x)
  {
    SelectBelow(mem, hp, r, f);
    Select(mem, hp, r, f).value
  }

  /** The payload of a constructor application, `x->tagged.payload`. */
  function PayloadOf(mem: seq<Slot>, hp: int, x: Obj): (p: Obj)
    requires WellFormed(mem, hp) && Live(mem, hp, x) && Load(mem, x).Tagged?
    ensures Live(mem, hp, p) && p == Load(mem, x).payload
  {
    PayloadBelow(mem, hp, x);
    Load(mem, x).payload
  }

  /** The mnemonic tag of an instruction: `__CASETAG` of the `___tag` field
      of its payload. */
  function Opcode(mem: seq<Slot>, hp: int, payload: Obj): (r: Result<Word>)
    requires WellFormed(mem, hp) && Live(mem, hp, payload)
    ensures r.Ok? <==> Select(mem, hp, payload, TagField).Ok? && CaseTag(mem, hp, Part(mem, hp, payload, TagField)).Ok?
    ensures Select(mem, hp, payload, TagField).Ok? ==> r == CaseTag(mem, hp, Part(mem, hp, payload, TagField))
    ensures Select(mem, hp, payload, TagField).Fail? ==> r == Select(mem, hp, payload, TagField).PropagateFailure()
  {
    var t :- Select(mem, hp, payload, TagField);
    CaseTag(mem, hp, t)
  }

  /** `pretty`: an instruction is a constructor application whose payload is
      the operand record; constructors of arity 0 print only the mnemonic,
      the others the mnemonic, a space and the operands. */
  function Pretty(mem: seq<Slot>, hp: int, nm: Names, insn: Obj): (r: Result<string>)
    requires WellFormed(mem, hp) && Live(mem, hp, insn)
    ensures !Load(mem, insn).Tagged? ==> r == Fail(Fatal("invalid instruction object"))
    ensures Load(mem, insn).Tagged? ==>
              var p := PayloadOf(mem, hp, insn);
              && (r.Ok? <==> Opcode(mem, hp, p).Ok? && (Load(mem, insn).tag == ARITY0 || PrettyOpnds(mem, hp, nm, p).Ok?))
              && (r.Ok? && Load(mem, insn).tag == ARITY0 ==> r.value == TagName(nm, Opcode(mem, hp, p).value))
              && (r.Ok? && Load(mem, insn).tag != ARITY0 ==>
                    PrettyOpnds(mem, hp, nm, p).Ok?
                    && r.value == TagName(nm, Opcode(mem, hp, p).value) + " " + PrettyOpnds(mem, hp, nm, p).value)
  {
    match Load(mem, insn)
    case Tagged(con, p) =>
      PayloadBelow(mem, hp, insn);
      var tag :- Opcode(mem, hp, p);
      if con == ARITY0 then Ok(TagName(nm, tag))
      else
        var s :- PrettyOpnds(mem, hp, nm, p);
        Ok(TagName(nm, tag) + " " + s)
    case _ => Fail(Fatal("invalid instruction object"))
  }

  /** `prettyln`: `pretty`, then a newline. */
  function Prettyln(mem: seq<Slot>, hp: int, nm: Names, insn: Obj): (r: Result<string>)
    requires WellFormed(mem, hp) && Live(mem, hp, insn)
    ensures r.Ok? <==> Pretty(mem, hp, nm, insn).Ok?
    ensures r.Ok? ==> r.value == Pretty(mem, hp, nm, insn).value + "\n"
    ensures r.Fail? ==> r == Pretty(mem, hp, nm, insn)
  {
    var s :- Pretty(mem, hp, nm, insn);
    Ok(s + "\n")
  }

  // ----- a reference for the record case ------------------------------------

  /** How many operands `prettyOpnds` prints for a record of size `sz`. */
  function OperandCount(sz: int): (n: nat)
    requires 1 <= sz <= 5
    ensures 1 <= n <= |OperandFields|
  {
    if sz <= 2 then 1 else sz - 1
  }

  /** The payloads of fields `fs` of record `r`, in order; the first missing
      field is the failure. */
  function SelectAll(mem: seq<Slot>, hp: int, r: Obj, fs: seq<Word>): (res: Result<seq<Obj>>)
    requires WellFormed(mem, hp) && Live(mem, hp, r)
    ensures res.Ok? ==> |res.value| == |fs|
    ensures res.Ok? ==> forall i :: 0 <= i < |fs| ==> Live(mem, hp, res.value[i]) && Rank(res.value[i]) < Rank(r)
    decreases |fs|
  {
    if fs == [] then Ok([])
    else
      SelectBelow(mem, hp, r, fs[0]);
      var o :- Select(mem, hp, r, fs[0]);
      var os :- SelectAll(mem, hp, r, fs[1..]);
      Ok([o] + os)
  }

  /** The reference listing: select the first `OperandCount(sz)` operand
      fields, then print them comma-separated. */
  function ListOperands(mem: seq<Slot>, hp: int, nm: Names, x: Obj, n: nat): Result<string>
    requires WellFormed(mem, hp) && Live(mem, hp, x) && n <= |OperandFields|
  {
    var os :- SelectAll(mem, hp, x, OperandFields[..n]);
    JoinOpnds(mem, hp, nm, os, Rank(x))
  }

  /** The strings `ss` separated by commas. */
  function Commas(ss: seq<string>): string
    decreases |ss|
  {
    if |ss| == 0 then ""
    else if |ss| == 1 then ss[0]
    else ss[0] + "," + Commas(ss[1..])
  }

  /** The texts of operands that all print. */
  function Texts(mem: seq<Slot>, hp: int, nm: Names, os: seq<Obj>): (t: seq<string>)
    requires WellFormed(mem, hp)
    requires forall i :: 0 <= i < |os| ==> Live(mem, hp, os[i]) && PrettyOpnds(mem, hp, nm, os[i]).Ok?
    ensures |t| == |os| && forall i :: 0 <= i < |os| ==> t[i] == PrettyOpnds(mem, hp, nm, os[i]).value
  {
    seq(|os|, i requires 0 <= i < |os| => PrettyOpnds(mem, hp, nm, os[i]).value)
  }

  // ----- lemmas --------------------------------------------------------------

  /** Operands that all print are printed as their texts separated by
      commas, the `printf(",")` between consecutive calls. */
  lemma {:induction false} JoinOpndsText(mem: seq<Slot>, hp: int, nm: Names, os: seq<Obj>, bound: nat)
    requires WellFormed(mem, hp)
    requires forall i :: 0 <= i < |os| ==> Live(mem, hp, os[i]) && Rank(os[i]) < bound
    requires forall i :: 0 <= i < |os| ==> PrettyOpnds(mem, hp, nm, os[i]).Ok?
    ensures JoinOpnds(mem, hp, nm, os, bound) == Ok(Commas(Texts(mem, hp, nm, os)))
    decreases |os|
  {
    if |os| > 1 {
      var t := Texts(mem, hp, nm, os);
      JoinOpndsText(mem, hp, nm, os[1..], bound);
      assert Texts(mem, hp, nm, os[1..]) == t[1..];
    }
  }

  /** The payload of a constructor application is live and of lower rank. */
  lemma PayloadBelow(mem: seq<Slot>, hp: int, x: Obj)
    requires WellFormed(mem, hp) && Live(mem, hp, x) && Load(mem, x).Tagged?
    ensures Live(mem, hp, Load(mem, x).payload) && Rank(Load(mem, x).payload) < Rank(x)
  {
    assert InHeap(x);
    assert SlotOkAt(mem, SlotOf(x));
    var p := Load(mem, x).payload;
    if IsStatic(p) {
      assert SlotOf(p) > HeapSize;
    }
  }

  /** A field selected from a record is of lower rank than the record. */
  lemma SelectBelow(mem: seq<Slot>, hp: int, r: Obj, f: Word)
    requires WellFormed(mem, hp) && Live(mem, hp, r)
    ensures Select(mem, hp, r, f).Ok? ==> Rank(Select(mem, hp, r, f).value) < Rank(r)
  {
    var res := Select(mem, hp, r, f);
    if res.Ok? {
      assert InHeap(r);
      if IsStatic(res.value) {
        assert SlotOf(res.value) > HeapSize;
      }
    }
  }

  /** The factor strings are the decimal powers of two. */
  lemma FactorNames()
    ensures Decimal(Pow2(1)) == "2" && Decimal(Pow2(2)) == "4" && Decimal(Pow2(3)) == "8"
  {
    assert Pow2(3) == 8;
  }

  /** Registers and immediates print as their payload. */
  lemma RegisterTransparent(mem: seq<Slot>, hp: int, nm: Names, x: Obj)
    requires WellFormed(mem, hp) && Live(mem, hp, x) && Load(mem, x).Tagged?
    requires Load(mem, x).tag == REG || IsImmediate(Load(mem, x).tag)
    ensures PrettyOpnds(mem, hp, nm, x) == PrettyOpnds(mem, hp, nm, PayloadOf(mem, hp, x))
  {
  }

  /** Memory operands, sums and scaled indices print through the printer of
      their payload record. */
  lemma StructuredOperand(mem: seq<Slot>, hp: int, nm: Names, x: Obj)
    requires WellFormed(mem, hp) && Live(mem, hp, x) && Load(mem, x).Tagged?
    ensures var tag, p := Load(mem, x).tag, PayloadOf(mem, hp, x);
            && (tag == MEM ==> PrettyOpnds(mem, hp, nm, x) == PrettyMem(mem, hp, nm, p))
            && (tag == SUM ==> PrettyOpnds(mem, hp, nm, x) == PrettySum(mem, hp, nm, p))
            && (tag == SCALE ==> PrettyOpnds(mem, hp, nm, x) == PrettyScale(mem, hp, nm, p))
  {
  }

  /** Near, far and relative addresses print `NEAR `, `FAR ` or `RELATIVE `
      and then their payload. */
  lemma AddressOperand(mem: seq<Slot>, hp: int, nm: Names, x: Obj)
    requires WellFormed(mem, hp) && Live(mem, hp, x) && Load(mem, x).Tagged?
    ensures var tag, p := Load(mem, x).tag, PayloadOf(mem, hp, x);
            && (tag == NEARABS ==> PrettyOpnds(mem, hp, nm, x) == Prefixed("NEAR ", PrettyOpnds(mem, hp, nm, p)))
            && (tag == FARABS ==> PrettyOpnds(mem, hp, nm, x) == Prefixed("FAR ", PrettyOpnds(mem, hp, nm, p)))
            && (IsRelative(tag) ==> PrettyOpnds(mem, hp, nm, x) == Prefixed("RELATIVE ", PrettyOpnds(mem, hp, nm, p)))
  {
  }

  /** Any other constructor prints its name and, unless its payload is
      `__NIL`, a comma and the payload. */
  lemma ConstructorOperand(mem: seq<Slot>, hp: int, nm: Names, x: Obj)
    requires WellFormed(mem, hp) && Live(mem, hp, x) && Load(mem, x).Tagged?
    requires !IsOperandForm(Load(mem, x).tag)
    ensures var tag, p := Load(mem, x).tag, PayloadOf(mem, hp, x);
            PrettyOpnds(mem, hp, nm, x) ==
              if TagOf(mem, hp, p) == NIL then Ok(TagName(nm, tag))
              else Prefixed(TagName(nm, tag) + ",", PrettyOpnds(mem, hp, nm, p))
  {
  }

  /** A printed bit-vector operand is `0x` and a hexadecimal numeral that
      reads back as the vector. */
  lemma BvReadsBack(mem: seq<Slot>, hp: int, nm: Names, x: Obj)
    requires WellFormed(mem, hp) && Live(mem, hp, x) && Load(mem, x).Bv?
    ensures var r := PrettyOpnds(mem, hp, nm, x);
            r.Ok? && r.value[..2] == "0x" && Value(r.value[2..], 16) == Load(mem, x).vec
  {
    var r := PrettyOpnds(mem, hp, nm, x);
    HexRoundTrip(Load(mem, x).vec);
    assert r.value[2..] == Hex(Load(mem, x).vec);
  }

  /** A printed integer operand reads back as the integer. */
  lemma IntReadsBack(mem: seq<Slot>, hp: int, nm: Names, x: Obj)
    requires WellFormed(mem, hp) && Live(mem, hp, x) && Load(mem, x).Int?
    ensures var r := PrettyOpnds(mem, hp, nm, x);
            r.Ok? && ParseDecimal(r.value) == Load(mem, x).value
  {
    DecimalRoundTrip(Load(mem, x).value);
  }

  /** The size prefix determines the size. */
  lemma SizePrefixInjective(a: I64, b: I64)
    requires SizePrefix(a) == SizePrefix(b)
    ensures a == b
  {
    var s := SizePrefix(a);
    if a in {8, 16, 32, 64, 128} || b in {8, 16, 32, 64, 128} {
      assert s[..2] == SizePrefix(a)[..2] == SizePrefix(b)[..2];
    } else {
      assert Decimal(a) == s[4..|s| - 2] == Decimal(b);
      DecimalInjective(a, b);
    }
  }

  /** Every payload `SelectAll` returns is the one `__RECORD_SELECT` gives
      for the field in the same position. */
  lemma {:induction false} SelectAllFields(mem: seq<Slot>, hp: int, r: Obj, fs: seq<Word>)
    requires WellFormed(mem, hp) && Live(mem, hp, r)
    ensures var res := SelectAll(mem, hp, r, fs);
            res.Ok? <==> forall i :: 0 <= i < |fs| ==> Select(mem, hp, r, fs[i]).Ok?
    ensures var res := SelectAll(mem, hp, r, fs);
            res.Ok? ==> forall i :: 0 <= i < |fs| ==> Select(mem, hp, r, fs[i]) == Ok(res.value[i])
    decreases |fs|
  {
    if fs != [] {
      SelectAllFields(mem, hp, r, fs[1..]);
      var res := SelectAll(mem, hp, r, fs);
      var o, rest := Select(mem, hp, r, fs[0]), SelectAll(mem, hp, r, fs[1..]);
      if o.Ok? && rest.Ok? {
        assert res == Ok([o.value] + rest.value);
        forall i | 0 <= i < |fs|
          ensures Select(mem, hp, r, fs[i]) == Ok(res.value[i])
        {
          if i > 0 {
            assert fs[i] == fs[1..][i - 1] && res.value[i] == rest.value[i - 1];
          }
        }
      } else if o.Ok? {
        assert res.Fail?;
        var j :| 0 <= j < |fs| - 1 && !Select(mem, hp, r, fs[1..][j]).Ok?;
        assert fs[1..][j] == fs[j + 1];
      } else {
        assert res.Fail?;
      }
    }
  }

  /** The operand record case agrees with the reference listing. */
  lemma RecordOperands(mem: seq<Slot>, hp: int, nm: Names, x: Obj)
    requires WellFormed(mem, hp) && Live(mem, hp, x) && Load(mem, x).Record?
    requires 1 <= Load(mem, x).sz <= 5
    ensures PrettyOpnds(mem, hp, nm, x) == ListOperands(mem, hp, nm, x, OperandCount(Load(mem, x).sz))
  {
    var sz := Load(mem, x).sz;
    var n := OperandCount(sz);
    if sz <= 2 {
      assert OperandFields[..n] == [Opnd1];
    } else if sz == 3 {
      assert OperandFields[..n] == [Opnd1, Opnd2];
    } else if sz == 4 {
      assert OperandFields[..n] == [Opnd1, Opnd2, Opnd3];
    } else {
      assert OperandFields[..n] == OperandFields;
    }
  }
}
