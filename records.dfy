/** The record macros and helpers of detail/codegen/c0/runtime.h: building a
   record field by field, selecting a field, and the functional update that
   clones the field block, patches the copy and seals it with a new header.
   Every operation is proved against the association-list specification in
   module Fields. */
module Records {
  import opened Words
  import opened Outcome
  import opened Fields
  import opened Objects
  import opened Memory

  /** `__RECORD_ADD(field, value)`: one `__TAGGED` field slot. */
  method RecordAdd(a: Arena, field: Word, value: Obj)
    requires a.Valid() && a.hp >= 1 && Live(a.heap[..], a.hp, value)
    modifies a`hp, a.heap
    ensures a.Valid()
    ensures a.hp == old(a.hp) - 1 && a.heap[..] == old(a.heap[..])[a.hp := Tagged(field, value)]
  {
    var _ := a.Push(Tagged(field, value));
  }

  /** `__RECORD_END(Cname, n)` and `__RECORD_END_UPDATE(Cdst)`: the record
      header below the `n` field slots that were allocated last. */
  method RecordEnd(a: Arena, n: int) returns (r: Obj)
    requires a.Valid() && a.hp >= 1 && 0 <= n < Two64 && TaggedBlock(a.heap[..], a.hp, n)
    modifies a`hp, a.heap
    ensures a.Valid()
    ensures a.hp == old(a.hp) - 1 && a.heap[..] == old(a.heap[..])[a.hp := Record(n, SlotAddr(a.hp + 1))]
    ensures r == RefTo(a.hp) && IsRecord(a.heap[..], a.hp, r)
    ensures RecordFields(a.heap[..], a.hp, r) == old(Block(a.heap[..], a.hp, n))
  {
    ghost var fs := Block(a.heap[..], a.hp, n);
    r := a.Push(Record(n, SlotAddr(a.hp)));
    assert FieldBase(a.heap[..], a.hp, r) == a.hp + 1;
    assert RecordFields(a.heap[..], a.hp, r) == fs;
  }

  /** A whole `__RECORD_BEGIN` / `__RECORD_ADD`* / `__RECORD_END` block.
      The field added last is `fields[0]`. */
  method BuildRecord(a: Arena, pairs: seq<(Word, Obj)>) returns (r: Obj)
    requires a.Valid() && |pairs| < a.hp
    requires forall i :: 0 <= i < |pairs| ==> Live(a.heap[..], a.hp, pairs[i].1)
    modifies a`hp, a.heap
    ensures a.Valid() && a.hp == old(a.hp) - |pairs| - 1
    ensures r == RefTo(a.hp) && IsRecord(a.heap[..], a.hp, r)
    ensures RecordFields(a.heap[..], a.hp, r) == Reverse(pairs)
    ensures forall k :: old(a.hp) <= k < HeapSize ==> a.heap[k] == old(a.heap[k])
  {
    ghost var mem0, hp0 := a.heap[..], a.hp;
    var j := 0;
    while j < |pairs|
      invariant 0 <= j <= |pairs|
      invariant a.Valid() && a.hp == hp0 - j
      invariant forall k :: hp0 <= k < HeapSize ==> a.heap[k] == mem0[k]
      invariant forall k :: a.hp <= k < hp0 ==>
                  a.heap[k] == Tagged(pairs[hp0 - 1 - k].0, pairs[hp0 - 1 - k].1)
    {
      LiveFrame(mem0, a.heap[..], hp0, a.hp, pairs[j].1);
      RecordAdd(a, pairs[j].0, pairs[j].1);
      j := j + 1;
    }
    ghost var fs := Block(a.heap[..], a.hp, |pairs|);
    forall i | 0 <= i < |pairs| ensures fs[i] == Reverse(pairs)[i] {
      ReverseAt(pairs, i);
    }
    r := RecordEnd(a, |pairs|);
  }

  /** `__recordLookup(record, field)`: the address of the first field slot
      with that tag; a fatal error when there is none. */
  method RecordLookup(a: Arena, r: Obj, field: Word) returns (res: Result<Addr>)
    requires a.heap.Length == HeapSize && IsRecord(a.heap[..], a.hp, r)
    ensures res.Ok? <==> FieldSlot(a.heap[..], a.hp, r, field).Some?
    ensures res.Ok? ==> res.value == SlotAddr(FieldSlot(a.heap[..], a.hp, r, field).value)
    ensures res.Fail? ==> res == Fail(Fatal("record-field not found"))
  {
    var rec := a.heap[SlotOf(r)];
    var sz, fields := rec.sz, SlotIndex(rec.fields);
    ghost var fs := RecordFields(a.heap[..], a.hp, r);
    var i := 0;
    while i < sz
      invariant 0 <= i <= sz
      invariant forall j :: 0 <= j < i ==> fs[j].0 != field
    {
      if a.heap[fields + i].tag == field {
        IndexOfIs(fs, field, i);
        return Ok(SlotAddr(fields + i));
      }
      i := i + 1;
    }
    return Fail(Fatal("record-field not found"));
  }

  /** `__recordCloneFields(record)`: a copy of the record's field slots,
      newly allocated just below `hp`. */
  method CloneFields(a: Arena, src: Obj)
    requires a.Valid() && IsRecord(a.heap[..], a.hp, src) && Load(a.heap[..], src).sz <= a.hp
    modifies a`hp, a.heap
    ensures a.Valid() && a.hp == old(a.hp) - old(Load(a.heap[..], src).sz)
    ensures TaggedBlock(a.heap[..], a.hp, old(Load(a.heap[..], src).sz))
    ensures Block(a.heap[..], a.hp, old(Load(a.heap[..], src).sz)) == old(RecordFields(a.heap[..], a.hp, src))
    ensures forall k :: old(a.hp) <= k < HeapSize ==> a.heap[k] == old(a.heap[k])
  {
    ghost var mem0, hp0, fs := a.heap[..], a.hp, RecordFields(a.heap[..], a.hp, src);
    var sz := a.heap[SlotOf(src)].sz;
    var b := SlotIndex(a.heap[SlotOf(src)].fields);
    assert b == FieldBase(mem0, hp0, src) && hp0 <= SlotOf(src) < b && b + sz <= HeapSize;
    var p := a.AllocN(sz);
    a.CopySlots(SlotIndex(p), b, sz);
    CopiedBlock(mem0, a.heap[..], hp0, b, sz);
  }

  /** `__RECORD_BEGIN_UPDATE(Cdst, Csrc)`: clone the source's fields and
      start counting them. */
  method BeginUpdate(a: Arena, src: Obj) returns (n: int)
    requires a.Valid() && IsRecord(a.heap[..], a.hp, src) && Load(a.heap[..], src).sz <= a.hp
    modifies a`hp, a.heap
    ensures a.Valid() && n == old(Load(a.heap[..], src).sz) && a.hp == old(a.hp) - n
    ensures TaggedBlock(a.heap[..], a.hp, n)
    ensures Block(a.heap[..], a.hp, n) == old(RecordFields(a.heap[..], a.hp, src))
    ensures forall k :: old(a.hp) <= k < HeapSize ==> a.heap[k] == old(a.heap[k])
  {
    n := a.heap[SlotOf(src)].sz;
    CloneFields(a, src);
  }

  /** `__recordUpdate(__ALLOC0(), n, field, value)`, the body of
      `__RECORD_UPDATE`: overwrite the payload of the first field slot with
      that tag among the `n` slots from `hp` up, or allocate a new field slot
      below them.  Returns how many slots it added. */
  method RecordUpdate(a: Arena, n: int, field: Word, value: Obj) returns (added: int)
    requires a.Valid() && 0 <= n && TaggedBlock(a.heap[..], a.hp, n)
    requires RefAbove(a.heap[..], a.hp + n - 1, value)
    requires field !in Tags(Block(a.heap[..], a.hp, n)) ==> a.hp >= 1
    modifies a`hp, a.heap
    ensures a.Valid()
    ensures added == if field in Tags(old(Block(a.heap[..], a.hp, n))) then 0 else 1
    ensures a.hp == old(a.hp) - added && TaggedBlock(a.heap[..], a.hp, n + added)
    ensures Block(a.heap[..], a.hp, n + added) == Update(old(Block(a.heap[..], a.hp, n)), field, value)
    ensures forall k :: old(a.hp) + n <= k < HeapSize ==> a.heap[k] == old(a.heap[k])
  {
    ghost var mem, fs := a.heap[..], Block(a.heap[..], a.hp, n);
    var i := 0;
    while i < n
      invariant 0 <= i <= n
      invariant a.heap[..] == mem && a.hp == old(a.hp)
      invariant forall j :: 0 <= j < i ==> fs[j].0 != field
    {
      var w := a.hp + i;
      if a.heap[w].tag == field {
        var s := a.heap[w].(payload := value);
        UpdateInPlace(mem, a.hp, n, i, field, value);
        a.heap[w] := s;
        assert a.heap[..] == mem[w := s];
        return 0;
      }
      i := i + 1;
    }
    UpdateByPush(mem, a.hp, n, field, value);
    var _ := a.Push(Tagged(field, value));
    return 1;
  }

  /** The overwriting branch of `__recordUpdate`: field `i` is the first with
      that tag, and replacing its payload performs `Update` on the block. */
  lemma UpdateInPlace(mem: seq<Slot>, hp: int, n: nat, i: nat, field: Word, value: Obj)
    requires WellFormed(mem, hp) && TaggedBlock(mem, hp, n) && i < n
    requires RefAbove(mem, hp + n - 1, value)
    requires mem[hp + i].tag == field && forall j :: 0 <= j < i ==> Block(mem, hp, n)[j].0 != field
    ensures field in Tags(Block(mem, hp, n))
    ensures WellFormed(mem[hp + i := Tagged(field, value)], hp)
    ensures TaggedBlock(mem[hp + i := Tagged(field, value)], hp, n)
    ensures Block(mem[hp + i := Tagged(field, value)], hp, n) == Update(Block(mem, hp, n), field, value)
  {
    var fs, s := Block(mem, hp, n), Tagged(field, value);
    IndexOfIs(fs, field, i);
    RefAboveLower(mem, mem, hp + i, hp + n - 1, value);
    WellFormedOverwrite(mem, hp, hp + i, s);
    BlockOverwrite(mem, hp, n, i, s);
  }

  /** The allocating branch of `__recordUpdate`: for a tag the block lacks,
      the new slot below it performs `Update` on the block. */
  lemma UpdateByPush(mem: seq<Slot>, hp: int, n: nat, field: Word, value: Obj)
    requires WellFormed(mem, hp) && TaggedBlock(mem, hp, n) && 0 < hp
    requires RefAbove(mem, hp + n - 1, value)
    requires forall j :: 0 <= j < n ==> Block(mem, hp, n)[j].0 != field
    ensures field !in Tags(Block(mem, hp, n))
    ensures SlotOk(mem, hp - 1, Tagged(field, value))
    ensures TaggedBlock(mem[hp - 1 := Tagged(field, value)], hp - 1, n + 1)
    ensures Block(mem[hp - 1 := Tagged(field, value)], hp - 1, n + 1) == Update(Block(mem, hp, n), field, value)
  {
    RefAboveLower(mem, mem, hp - 1, hp + n - 1, value);
    BlockPush(mem, hp, n, Tagged(field, value));
  }

  /** A whole `__RECORD_BEGIN_UPDATE` / `__RECORD_UPDATE`* /
      `__RECORD_END_UPDATE` block: a new record whose fields are the
      source's with the updates applied in order.  The source is left as it
      was. */
  method UpdateRecord(a: Arena, src: Obj, ups: seq<(Word, Obj)>) returns (dst: Obj)
    requires a.Valid() && IsRecord(a.heap[..], a.hp, src)
    requires forall i :: 0 <= i < |ups| ==> Live(a.heap[..], a.hp, ups[i].1)
    requires |UpdateAll(RecordFields(a.heap[..], a.hp, src), ups)| < a.hp
    modifies a`hp, a.heap
    ensures a.Valid()
    ensures a.hp == old(a.hp) - |UpdateAll(old(RecordFields(a.heap[..], a.hp, src)), ups)| - 1
    ensures dst == RefTo(a.hp) && IsRecord(a.heap[..], a.hp, dst)
    ensures RecordFields(a.heap[..], a.hp, dst) == UpdateAll(old(RecordFields(a.heap[..], a.hp, src)), ups)
    ensures IsRecord(a.heap[..], a.hp, src)
    ensures RecordFields(a.heap[..], a.hp, src) == old(RecordFields(a.heap[..], a.hp, src))
    ensures forall k :: old(a.hp) <= k < HeapSize ==> a.heap[k] == old(a.heap[k])
  {
    ghost var mem0, hp0, fs0 := a.heap[..], a.hp, RecordFields(a.heap[..], a.hp, src);
    UpdateAllGrows(fs0, ups, 0);
    assert ups[..0] == [];
    var n := BeginUpdate(a, src);
    var j := 0;
    while j < |ups|
      invariant 0 <= j <= |ups|
      invariant a.Valid() && 0 <= n && a.hp + n == hp0
      invariant TaggedBlock(a.heap[..], a.hp, n) && Block(a.heap[..], a.hp, n) == UpdateAll(fs0, ups[..j])
      invariant forall k :: hp0 <= k < HeapSize ==> a.heap[k] == mem0[k]
    {
      UpdateAllGrows(fs0, ups, j + 1);
      assert ups[..j + 1][..j] == ups[..j];
      LiveFrame(mem0, a.heap[..], hp0, hp0, ups[j].1);
      var added := RecordUpdate(a, n, ups[j].0, ups[j].1);
      n := n + added;
      j := j + 1;
    }
    assert ups[..|ups|] == ups;
    RecordFrame(mem0, a.heap[..], hp0, a.hp, src);
    dst := RecordEnd(a, n);
    RecordFrame(mem0, a.heap[..], hp0, a.hp, src);
  }

  // ----- lemmas --------------------------------------------------------------

  /** A record stays a record with the same fields while the slots from its
      header up are left alone. */
  lemma RecordFrame(mem: seq<Slot>, mem': seq<Slot>, hp: int, hp': int, r: Obj)
    requires IsRecord(mem, hp, r) && WellFormed(mem', hp') && hp' <= hp
    requires forall k :: hp <= k < HeapSize ==> mem'[k] == mem[k]
    ensures IsRecord(mem', hp', r) && RecordFields(mem', hp', r) == RecordFields(mem, hp, r)
  {
    LiveFrame(mem, mem', hp, hp', r);
    var b, n := FieldBase(mem, hp, r), Load(mem, r).sz;
    assert forall j :: b <= j < b + n ==> mem'[j] == mem[j];
  }

  /** Selecting from a record built by `BuildRecord`: the value of the last
      addition of that field, a fatal error for a field never added; with
      distinct fields, the value given for it. */
  lemma SelectBuilt(mem: seq<Slot>, hp: int, r: Obj, pairs: seq<(Word, Obj)>, f: Word)
    requires IsRecord(mem, hp, r) && RecordFields(mem, hp, r) == Reverse(pairs)
    ensures Select(mem, hp, r, f).Ok? <==> f in Tags(pairs)
    ensures Select(mem, hp, r, f).Fail? ==> Select(mem, hp, r, f).IsFatal()
    ensures Select(mem, hp, r, f).Ok? ==> Some(Select(mem, hp, r, f).value) == Lookup(Reverse(pairs), f)
    ensures Select(mem, hp, r, f).Ok? && Distinct(pairs) ==>
              Some(Select(mem, hp, r, f).value) == Lookup(pairs, f)
  {
    TagsReverse(pairs);
    if Distinct(pairs) {
      LookupReverse(pairs, f);
    }
  }

  /** Selecting from a record made by `UpdateRecord`: the last value the
      update block gave the field, else the source's value, else a fatal
      error. */
  lemma SelectUpdated(mem: seq<Slot>, hp: int, dst: Obj, fs: seq<(Word, Obj)>, ups: seq<(Word, Obj)>, f: Word)
    requires IsRecord(mem, hp, dst) && RecordFields(mem, hp, dst) == UpdateAll(fs, ups)
    ensures Select(mem, hp, dst, f).Ok? <==> f in Tags(fs) || f in Tags(ups)
    ensures Select(mem, hp, dst, f).Fail? ==> Select(mem, hp, dst, f).IsFatal()
    ensures Select(mem, hp, dst, f).Ok? ==>
              Some(Select(mem, hp, dst, f).value) ==
              if f in Tags(ups) then Lookup(Reverse(ups), f) else Lookup(fs, f)
  {
    TagsUpdateAll(fs, ups);
    LookupUpdateAll(fs, ups, f);
  }
}
