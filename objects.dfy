/** The object model of detail/codegen/c0/runtime.h: heap slots, tags,
   internal and external references, and the read-only accessors.

   Addresses are word addresses.  A slot (`__unwrapped_obj`, 24 bytes) is
   three words; slot `k` of the arena starts at word `3 * k`.  An internal
   reference (`__objref`) points at a slot's header word; an external
   reference (`__obj`) points one header word further (`__WRAP`).  The three
   singletons `__UNIT`, `__TRUE` and `__FALSE` are in static storage, which is
   modelled as three slots just above the arena's top. */
module Objects {
  import opened Words
  import opened Outcome
  import opened Fields

  /** `__RT_HEAP_SIZE`: the number of slots in the arena. */
  const HeapSize: nat := 4 * 1024
  /** sizeof(__header), in words. */
  const HeaderWords: nat := 1
  /** sizeof(__unwrapped_obj), in words and in bytes. */
  const SlotWords: nat := 3
  const SlotBytes: nat := 8 * SlotWords

  /** A word address. */
  type Addr = int
  /** An external reference (`__obj`). */
  type Obj = int

  /** `enum __tag`: the header discriminator. */
  datatype Tag = CLOSURE | BV | INT | TAGGED | RECORD | NIL | BLOB | ROPELEAF | ROPEBRANCH | LABEL

  /** The contents of one slot.  Every constructor but `Raw` is a header tag
      with its payload (`union __unwrapped_obj`).  `Raw` is a slot that holds
      the bytes of a rope leaf and no header. */
  datatype Slot =
    | Closure(sz: Word, env: Addr)          // env: internal ref of the first captured slot
    | Bv(sz: Word, vec: Word)
    | Int(value: I64)
    | Tagged(tag: Word, payload: Obj)
    | Record(sz: Word, fields: Addr)        // fields: internal ref of fields[0]
    | Nil
    | Blob(base: seq<Byte>, offset: int, sz: Word)  // a view of base[offset..offset+sz]
    | RopeLeaf(blob: Addr, sz: Word)        // blob: internal ref of the first byte slot
    | RopeBranch(left: Obj, right: Obj)
    | Label(f: nat)                         // an opaque code pointer
    | Raw(bytes: seq<Byte>)

  function HeaderTag(s: Slot): Tag
    requires !s.Raw?
  {
    match s
    case Closure(_, _) => CLOSURE
    case Bv(_, _) => BV
    case Int(_) => INT
    case Tagged(_, _) => TAGGED
    case Record(_, _) => RECORD
    case Nil => NIL
    case Blob(_, _, _) => BLOB
    case RopeLeaf(_, _) => ROPELEAF
    case RopeBranch(_, _) => ROPEBRANCH
    case Label(_) => LABEL
  }

  // ----- addresses -----------------------------------------------------------

  /** Internal reference of slot `k`. */
  function SlotAddr(k: int): (o: Addr)
    ensures IsSlotAddr(o) && SlotIndex(o) == k
  {
    k * SlotWords
  }

  /** The slot an internal reference points into. */
  function SlotIndex(o: Addr): int { o / SlotWords }

  predicate IsSlotAddr(o: Addr) { o % SlotWords == 0 }

  /** `__WRAP`: from the header to the payload. */
  function Wrap(o: Addr): Obj { o + HeaderWords }

  /** `__UNWRAP`: from the payload back to the header. */
  function Unwrap(x: Obj): Addr { x - HeaderWords }

  /** The external reference of slot `k`. */
  function RefTo(k: int): Obj { Wrap(SlotAddr(k)) }

  predicate IsRef(x: Obj) { IsSlotAddr(Unwrap(x)) }

  /** The slot an external reference denotes. */
  function SlotOf(x: Obj): int { SlotIndex(Unwrap(x)) }

  // ----- static singletons ---------------------------------------------------

  const UnitSlot: int := HeapSize + 1
  const TrueSlot: int := HeapSize + 2
  const FalseSlot: int := HeapSize + 3

  const UNIT: Obj := RefTo(UnitSlot)
  const TRUE: Obj := RefTo(TrueSlot)
  const FALSE: Obj := RefTo(FalseSlot)

  predicate IsStatic(x: Obj) { x == UNIT || x == TRUE || x == FALSE }

  /** `__unwrapped_UNIT`, `__unwrapped_TRUE`, `__unwrapped_FALSE`. */
  function StaticSlot(x: Obj): (s: Slot)
    requires IsStatic(x)
  {
    if x == UNIT then Nil else if x == TRUE then Bv(1, 1) else Bv(1, 0)
  }

  predicate InHeap(x: Obj) { IsRef(x) && 0 <= SlotOf(x) < HeapSize }

  predicate Addressable(x: Obj) { InHeap(x) || IsStatic(x) }

  /** The slot an external reference denotes, in the arena `mem` or in
      static storage. */
  function Load(mem: seq<Slot>, x: Obj): Slot
    requires |mem| == HeapSize && Addressable(x)
  {
    if InHeap(x) then mem[SlotOf(x)] else StaticSlot(x)
  }

  /** `x` refers to a value (not to raw bytes) strictly above slot `k`.
      Every reference stored in a live slot `k` is of this kind: a value is
      always allocated before the values that refer to it, and the arena
      grows downwards. */
  predicate RefAbove(mem: seq<Slot>, k: int, x: Obj)
    requires |mem| == HeapSize
    ensures RefAbove(mem, k, x) ==> Addressable(x)
  {
    (InHeap(x) && k < SlotOf(x) && !mem[SlotOf(x)].Raw?) || IsStatic(x)
  }

  /** `x` refers to a live value: one allocated since the last reset, or a
      singleton. */
  predicate Live(mem: seq<Slot>, hp: int, x: Obj)
    requires |mem| == HeapSize
    ensures Live(mem, hp, x) ==> Addressable(x)
  {
    RefAbove(mem, hp - 1, x)
  }

  /** Every one of `xs` is live. */
  predicate AllLive(mem: seq<Slot>, hp: int, xs: seq<Obj>)
    requires |mem| == HeapSize
    ensures AllLive(mem, hp, xs) ==> forall i :: 0 <= i < |xs| ==> Addressable(xs[i])
  {
    forall i :: 0 <= i < |xs| ==> Live(mem, hp, xs[i])
  }

  /** Distance below the highest static slot; it decreases along every
      reference stored in a live slot. */
  function Rank(x: Obj): nat
    requires Addressable(x)
  {
    FalseSlot - SlotOf(x)
  }

  /** A bit-vector value has no bits set at or above its width. */
  predicate InWidth(vec: int, sz: int) {
    0 <= sz <= 64 && 0 <= vec < Pow2(sz)
  }

  /** Slots `b .. b+n-1` exist and are all record fields (`__TAGGED`). */
  predicate TaggedBlock(mem: seq<Slot>, b: int, n: int) {
    0 <= b && b + n <= |mem| && forall j :: b <= j < b + n ==> mem[j].Tagged?
  }

  /** The well-formedness of a live slot `s` stored at index `k`. */
  predicate SlotOk(mem: seq<Slot>, k: int, s: Slot)
    requires |mem| == HeapSize
  {
    match s
    case Closure(sz, env) =>
      && IsSlotAddr(env) && 0 <= SlotIndex(env) && k < SlotIndex(env) && SlotIndex(env) + sz <= HeapSize
      && forall j :: SlotIndex(env) <= j < SlotIndex(env) + sz ==> !mem[j].Raw?
    case Bv(sz, vec) => InWidth(vec, sz)
    case Tagged(_, p) => RefAbove(mem, k, p)
    case Record(sz, f) =>
      IsSlotAddr(f) && k < SlotIndex(f) && TaggedBlock(mem, SlotIndex(f), sz)
    case RopeBranch(l, r) => RefAbove(mem, k, l) && RefAbove(mem, k, r)
    case _ => true
  }

  /** Slot `k` of `mem` is well-formed where it is stored. */
  predicate SlotOkAt(mem: seq<Slot>, k: int)
    requires |mem| == HeapSize && 0 <= k < HeapSize
  {
    SlotOk(mem, k, mem[k])
  }

  /** The arena invariant: every slot from `hp` to the top is well-formed. */
  predicate WellFormed(mem: seq<Slot>, hp: int) {
    && |mem| == HeapSize
    && 0 <= hp <= HeapSize
    && forall k :: hp <= k < HeapSize ==> SlotOkAt(mem, k)
  }

  // ----- records -------------------------------------------------------------

  /** The (tag, payload) pairs stored in slots `b .. b+n-1`. */
  function Block(mem: seq<Slot>, b: int, n: nat): (r: seq<(Word, Obj)>)
    requires TaggedBlock(mem, b, n)
    ensures |r| == n
    ensures forall i :: 0 <= i < n ==> r[i] == (mem[b + i].tag, mem[b + i].payload)
  {
    seq(n, i requires 0 <= i < n => (mem[b + i].tag, mem[b + i].payload))
  }

  predicate IsRecord(mem: seq<Slot>, hp: int, r: Obj) {
    WellFormed(mem, hp) && Live(mem, hp, r) && Load(mem, r).Record?
  }

  /** Slot index of `fields[0]` of the record `r`. */
  function FieldBase(mem: seq<Slot>, hp: int, r: Obj): (b: int)
    requires IsRecord(mem, hp, r)
    ensures SlotOf(r) < b && TaggedBlock(mem, b, Load(mem, r).sz)
  {
    assert SlotOkAt(mem, SlotOf(r));
    SlotIndex(Load(mem, r).fields)
  }

  /** The field list of the record `r`, in storage order. */
  function RecordFields(mem: seq<Slot>, hp: int, r: Obj): seq<(Word, Obj)>
    requires IsRecord(mem, hp, r)
  {
    Block(mem, FieldBase(mem, hp, r), Load(mem, r).sz)
  }

  /** `__recordLookup` as a function: the slot index of the first field of
      `r` whose tag is `field`, or none when the tag is absent. */
  function FieldSlot(mem: seq<Slot>, hp: int, r: Obj, field: Word): (o: Option<int>)
    requires IsRecord(mem, hp, r)
    ensures o.Some? <==> field in Tags(RecordFields(mem, hp, r))
    ensures o.Some? ==> SlotOf(r) < o.value < HeapSize && mem[o.value].Tagged? && mem[o.value].tag == field
  {
    match IndexOf(RecordFields(mem, hp, r), field)
    case None => None
    case Some(i) => Some(FieldBase(mem, hp, r) + i)
  }

  /** `__RECORD_SELECT(r, field)`: the payload of that field.  Selecting from
      a non-record reads a union member through the wrong variant. */
  function Select(mem: seq<Slot>, hp: int, r: Obj, field: Word): (res: Result<Obj>)
    requires WellFormed(mem, hp) && Live(mem, hp, r)
    ensures res.Ok? ==> RefAbove(mem, SlotOf(r), res.value) && Live(mem, hp, res.value)
    ensures res.Ok? <==> Load(mem, r).Record? && field in Tags(RecordFields(mem, hp, r))
    ensures res.Ok? ==> Lookup(RecordFields(mem, hp, r), field) == Some(res.value)
    ensures res.IsFatal() <==> Load(mem, r).Record? && field !in Tags(RecordFields(mem, hp, r))
  {
    if !Load(mem, r).Record? then Fail(Undefined("record selection on a non-record"))
    else
      match FieldSlot(mem, hp, r, field)
      case None => Fail(Fatal("record-field not found"))
      case Some(o) =>
        FieldSlotPayload(mem, hp, r, field);
        Ok(mem[o].payload)
  }

  /** The slot `FieldSlot` finds holds the payload `Lookup` gives for the
      field list, and that payload is a live value above the record. */
  lemma FieldSlotPayload(mem: seq<Slot>, hp: int, r: Obj, field: Word)
    requires IsRecord(mem, hp, r) && FieldSlot(mem, hp, r, field).Some?
    ensures var o := FieldSlot(mem, hp, r, field).value;
            && Lookup(RecordFields(mem, hp, r), field) == Some(mem[o].payload)
            && RefAbove(mem, SlotOf(r), mem[o].payload)
            && Live(mem, hp, mem[o].payload)
  {
    var fs, b := RecordFields(mem, hp, r), FieldBase(mem, hp, r);
    var i := IndexOf(fs, field).value;
    var o := b + i;
    assert FieldSlot(mem, hp, r, field).value == o;
    assert fs[i] == (mem[o].tag, mem[o].payload);
    assert Lookup(fs, field) == Some(mem[o].payload);
    assert hp <= SlotOf(r) < o < HeapSize;
    assert SlotOkAt(mem, o);
  }

  // ----- accessors -----------------------------------------------------------

  /** `__TAG(x)`: the header tag of a live value. */
  function TagOf(mem: seq<Slot>, hp: int, x: Obj): (t: Tag)
    requires |mem| == HeapSize && Live(mem, hp, x)
    ensures !Load(mem, x).Raw? && t == HeaderTag(Load(mem, x))
  {
    HeaderTag(Load(mem, x))
  }

  /** `__CASETAG`: the value a generated `switch` branches on. */
  function CaseTag(mem: seq<Slot>, hp: int, x: Obj): (r: Result<Word>)
    requires |mem| == HeapSize && Live(mem, hp, x)
    ensures r.Ok? <==> TagOf(mem, hp, x) in {INT, TAGGED, BV}
    ensures r.Ok? ==> match Load(mem, x)
                      case Int(v) => r.value == AsWord(v)
                      case Tagged(t, _) => r.value == t
                      case Bv(_, vec) => r.value == vec
                      case _ => false
    ensures r.Fail? ==> r.IsFatal()
  {
    match Load(mem, x)
    case Int(v) => Ok(AsWord(v))
    case Tagged(t, _) => Ok(t)
    case Bv(_, vec) => Ok(vec)
    case _ => Fail(Fatal("__CASETAG() applied to non-tagged object"))
  }

  /** `__DECON`: the payload of a constructor application, anything else
      unchanged. */
  function Decon(mem: seq<Slot>, hp: int, x: Obj): (r: Obj)
    requires |mem| == HeapSize && Live(mem, hp, x)
    ensures Load(mem, x).Tagged? ==> r == Load(mem, x).payload
    ensures !Load(mem, x).Tagged? ==> r == x
  {
    match Load(mem, x)
    case Tagged(_, p) => p
    case _ => x
  }

  /** `__isTrue`: identity with the `__TRUE` singleton. */
  predicate IsTrue(x: Obj) { x == TRUE }

  /** `__isFalse`: identity with the `__FALSE` singleton. */
  predicate IsFalse(x: Obj) { x == FALSE }

  /** `__isNil`: `__TRUE` exactly for a `__NIL` value. */
  function IsNil(mem: seq<Slot>, hp: int, x: Obj): (r: Obj)
    requires |mem| == HeapSize && Live(mem, hp, x)
    ensures r == TRUE <==> TagOf(mem, hp, x) == NIL
    ensures r == FALSE <==> TagOf(mem, hp, x) != NIL
  {
    if TagOf(mem, hp, x) == NIL then TRUE else FALSE
  }

  /** `___isNil`: the same test as a C truth value. */
  function IsNilFlag(mem: seq<Slot>, hp: int, x: Obj): (r: int)
    requires |mem| == HeapSize && Live(mem, hp, x)
    ensures r == 1 <==> IsNil(mem, hp, x) == TRUE
    ensures r == 0 <==> IsNil(mem, hp, x) == FALSE
  {
    if TagOf(mem, hp, x) == NIL then 1 else 0
  }

  // ----- lemmas --------------------------------------------------------------

  /** `__UNWRAP(__WRAP(o)) == o`, and wrapping a slot's header address gives
      back a reference to that same slot. */
  lemma WrapUnwrap(o: Addr, x: Obj)
    ensures Unwrap(Wrap(o)) == o && Wrap(Unwrap(x)) == x
    ensures IsSlotAddr(o) ==> IsRef(Wrap(o)) && SlotOf(Wrap(o)) == SlotIndex(o)
  {
  }

  /** The tag read through the external reference of a slot is the header
      written into that slot. */
  lemma {:induction false} TagOfWritten(mem: seq<Slot>, hp: int, k: int, s: Slot)
    requires |mem| == HeapSize && 0 <= hp <= k < HeapSize && !s.Raw?
    ensures Live(mem[k := s], hp, RefTo(k))
    ensures TagOf(mem[k := s], hp, RefTo(k)) == HeaderTag(s)
  {
    assert SlotOf(RefTo(k)) == k;
  }

  /** The singletons are distinct and `__TRUE`/`__FALSE` are the bit-vectors
      of width 1 holding 1 and 0. */
  lemma Singletons(mem: seq<Slot>)
    requires |mem| == HeapSize
    ensures UNIT != TRUE && TRUE != FALSE && UNIT != FALSE
    ensures !InHeap(UNIT) && !InHeap(TRUE) && !InHeap(FALSE)
    ensures Load(mem, UNIT) == Nil && Load(mem, TRUE) == Bv(1, 1) && Load(mem, FALSE) == Bv(1, 0)
  {
  }

  /** `__isTrue` tests identity, not contents: no arena value is true, not
      even a freshly built bit-vector of width 1 holding 1. */
  lemma IsTrueIsIdentity(x: Obj)
    requires InHeap(x)
    ensures !IsTrue(x) && !IsFalse(x)
  {
  }

  /** Whether a slot is well-formed depends only on the slots above it. */
  lemma SlotOkFrame(mem: seq<Slot>, mem': seq<Slot>, k: int, s: Slot)
    requires |mem| == HeapSize && |mem'| == HeapSize
    requires forall j :: 0 <= j < HeapSize && k < j ==> mem'[j] == mem[j]
    ensures SlotOk(mem, k, s) == SlotOk(mem', k, s)
  {
    match s
    case Record(sz, f) =>
      if IsSlotAddr(f) && k < SlotIndex(f) {
        var b := SlotIndex(f);
        assert forall j :: b <= j < b + sz && 0 <= j < HeapSize ==> mem'[j] == mem[j];
      }
    case Closure(sz, env) =>
      if IsSlotAddr(env) && 0 <= SlotIndex(env) && k < SlotIndex(env) && SlotIndex(env) + sz <= HeapSize {
        var b := SlotIndex(env);
        assert forall j :: b <= j < b + sz ==> mem'[j] == mem[j];
      }
    case _ =>
  }

  /** A slot that is well-formed at `j` is well-formed at any lower index, so
      a copy placed further down stays well-formed. */
  lemma SlotOkLower(mem: seq<Slot>, i: int, j: int, s: Slot)
    requires |mem| == HeapSize && i <= j && SlotOk(mem, j, s)
    ensures SlotOk(mem, i, s)
  {
  }

  /** Every live bit-vector fits its width. */
  lemma LiveBvInWidth(mem: seq<Slot>, hp: int, x: Obj)
    requires WellFormed(mem, hp) && Live(mem, hp, x) && Load(mem, x).Bv?
    ensures InWidth(Load(mem, x).vec, Load(mem, x).sz)
  {
    if InHeap(x) {
      assert SlotOkAt(mem, SlotOf(x));
    }
  }

  /** Overwriting field slot `b + i` of a block changes only pair `i`. */
  lemma BlockOverwrite(mem: seq<Slot>, b: int, n: nat, i: nat, s: Slot)
    requires TaggedBlock(mem, b, n) && i < n && s.Tagged?
    ensures TaggedBlock(mem[b + i := s], b, n)
    ensures Block(mem[b + i := s], b, n) == Block(mem, b, n)[i := (s.tag, s.payload)]
  {
  }

  /** A field slot written just below a block becomes its pair 0. */
  lemma BlockPush(mem: seq<Slot>, b: int, n: nat, s: Slot)
    requires TaggedBlock(mem, b, n) && 0 < b && s.Tagged?
    ensures TaggedBlock(mem[b - 1 := s], b - 1, n + 1)
    ensures Block(mem[b - 1 := s], b - 1, n + 1) == [(s.tag, s.payload)] + Block(mem, b, n)
  {
    var m := mem[b - 1 := s];
    var l, r := Block(m, b - 1, n + 1), [(s.tag, s.payload)] + Block(mem, b, n);
    forall j | 0 <= j < n + 1 ensures l[j] == r[j] {
      if j > 0 {
        assert m[b - 1 + j] == mem[b + (j - 1)];
      }
    }
    assert l == r;
  }

  /** A copy of the live field block at `b`, placed in the `n` slots just
      below `hp`, is a well-formed block with the same pairs. */
  lemma CopiedBlock(mem: seq<Slot>, mem': seq<Slot>, hp: int, b: int, n: nat)
    requires WellFormed(mem, hp) && |mem'| == HeapSize && n <= hp <= b && TaggedBlock(mem, b, n)
    requires forall k :: 0 <= k < hp - n ==> mem'[k] == mem[k]
    requires forall k :: hp <= k < HeapSize ==> mem'[k] == mem[k]
    requires forall k :: hp - n <= k < hp ==> mem'[k] == mem[b + k - (hp - n)]
    ensures WellFormed(mem', hp - n) && TaggedBlock(mem', hp - n, n)
    ensures Block(mem', hp - n, n) == Block(mem, b, n)
  {
    var pk := hp - n;
    forall k | pk <= k < hp ensures SlotOkAt(mem', k) {
      var t := k - pk;
      assert SlotOkAt(mem, b + t);
      RefAboveLower(mem, mem', k, b + t, mem[b + t].payload);
    }
    WellFormedExtend(mem, mem', hp, pk);
    forall t | 0 <= t < n ensures Block(mem', pk, n)[t] == Block(mem, b, n)[t] {
      assert mem'[pk + t] == mem[b + t];
    }
  }

  /** A reference above slot `j` is above any lower slot, in any arena that
      agrees with this one above `j`. */
  lemma RefAboveLower(mem: seq<Slot>, mem': seq<Slot>, i: int, j: int, x: Obj)
    requires |mem| == HeapSize && |mem'| == HeapSize && i <= j
    requires forall k :: 0 <= k < HeapSize && j < k ==> mem'[k] == mem[k]
    requires RefAbove(mem, j, x)
    ensures RefAbove(mem', i, x)
  {
    if InHeap(x) {
      assert mem'[SlotOf(x)] == mem[SlotOf(x)];
    }
  }

  /** A value live before some allocations stays live, and reads the same,
      while the slots it can see are left alone. */
  lemma LiveFrame(mem: seq<Slot>, mem': seq<Slot>, hp: int, hp': int, x: Obj)
    requires |mem| == HeapSize && |mem'| == HeapSize && 0 <= hp' <= hp
    requires forall j :: hp <= j < HeapSize ==> mem'[j] == mem[j]
    requires Live(mem, hp, x)
    ensures Live(mem', hp', x) && Load(mem', x) == Load(mem, x)
  {
    if InHeap(x) {
      assert mem'[SlotOf(x)] == mem[SlotOf(x)];
    }
  }

  /** Allocating slots `hp' .. hp-1` and writing well-formed slots into them,
      while leaving everything from `hp` up as it was, keeps the arena
      well-formed. */
  lemma WellFormedExtend(mem: seq<Slot>, mem': seq<Slot>, hp: int, hp': int)
    requires WellFormed(mem, hp) && |mem'| == HeapSize && 0 <= hp' <= hp
    requires forall j :: hp <= j < HeapSize ==> mem'[j] == mem[j]
    requires forall k :: hp' <= k < hp ==> SlotOkAt(mem', k)
    ensures WellFormed(mem', hp')
  {
    forall k | hp <= k < HeapSize ensures SlotOkAt(mem', k) {
      assert SlotOkAt(mem, k);
      SlotOkFrame(mem, mem', k, mem'[k]);
    }
  }

  /** Extending the arena downwards with rope leaves and raw byte slots
      keeps it well-formed. */
  lemma WellFormedLeaves(mem: seq<Slot>, mem': seq<Slot>, hp: int, hp': int)
    requires WellFormed(mem, hp) && |mem'| == HeapSize && 0 <= hp' <= hp
    requires forall j :: hp <= j < HeapSize ==> mem'[j] == mem[j]
    requires forall k :: hp' <= k < hp ==> mem'[k].Raw? || mem'[k].RopeLeaf?
    ensures WellFormed(mem', hp')
  {
    forall k | hp' <= k < hp ensures SlotOkAt(mem', k) {
    }
    WellFormedExtend(mem, mem', hp, hp');
  }

  /** Allocating one slot below `hp` and writing a well-formed slot into it
      keeps the arena well-formed. */
  lemma WellFormedAlloc(mem: seq<Slot>, hp: int, s: Slot)
    requires WellFormed(mem, hp) && 0 < hp && SlotOk(mem, hp - 1, s)
    ensures WellFormed(mem[hp - 1 := s], hp - 1)
  {
    var mem' := mem[hp - 1 := s];
    forall k | hp - 1 <= k < HeapSize ensures SlotOkAt(mem', k) {
      if k >= hp { assert SlotOkAt(mem, k); }
      SlotOkFrame(mem, mem', k, mem'[k]);
    }
  }

  /** Overwriting a live record field with another record field whose
      payload lies above it keeps the arena well-formed. */
  lemma WellFormedOverwrite(mem: seq<Slot>, hp: int, w: int, s: Slot)
    requires WellFormed(mem, hp) && hp <= w < HeapSize
    requires mem[w].Tagged? && s.Tagged? && SlotOk(mem, w, s)
    ensures WellFormed(mem[w := s], hp)
  {
    var mem' := mem[w := s];
    forall k | hp <= k < HeapSize ensures SlotOkAt(mem', k) {
      assert SlotOkAt(mem, k);
      if k >= w {
        SlotOkFrame(mem, mem', k, mem'[k]);
      } else {
        match mem[k]
        case Record(sz, f) =>
          var b := SlotIndex(f);
          assert forall j :: b <= j < b + sz ==> mem'[j].Tagged?;
        case _ =>
      }
    }
  }
}
