/** The bitstream primitives of detail/codegen/c0/runtime.c.  A decoder
   state is a record whose `___blob` field holds a view of the input:
   `__consume` reads the first byte of the view and hands back a pair of
   that byte and a state whose view is one byte shorter; `__unconsume`
   widens the view by one byte again; `eval` builds the initial state. */
module Stream {
  import opened Words
  import opened Outcome
  import opened Fields
  import opened Objects
  import opened Memory
  import opened Records
  import opened Symbols

  // ----- views ---------------------------------------------------------------

  /** The view `(buf + 1, sz - 1)` that `__consume` stores. */
  function Advance(v: Slot): Slot
    requires v.Blob? && v.sz > 0
  {
    Blob(v.base, v.offset + 1, v.sz - 1)
  }

  /** The view `(buf - 1, sz + 1)` that `__unconsume` stores; the length is a
      `__word` and wraps. */
  function Retreat(v: Slot): Slot
    requires v.Blob?
  {
    Blob(v.base, v.offset - 1, WordInc(v.sz))
  }

  /** Widening a view that was narrowed gives back the same position and
      length. */
  lemma RetreatAdvance(v: Slot)
    requires v.Blob? && v.sz > 0
    ensures Retreat(Advance(v)) == v
  {
  }

  /** Narrowing a widened view gives it back, except for the length
      `2^64 - 1`, whose `sz + 1` wraps to 0. */
  lemma AdvanceRetreat(v: Slot)
    requires v.Blob?
    ensures v.sz < Two64 - 1 ==> Retreat(v).sz > 0 && Advance(Retreat(v)) == v
    ensures v.sz == Two64 - 1 ==> Retreat(v).sz == 0
  {
  }

  // ----- states --------------------------------------------------------------

  /** `__RECORD_SELECT(r, f)` for a field that is there. */
  function Field(mem: seq<Slot>, hp: int, r: Obj, f: Word): (x: Obj)
    requires IsRecord(mem, hp, r) && f in Tags(RecordFields(mem, hp, r))
    ensures Live(mem, hp, x) && Lookup(RecordFields(mem, hp, r), f) == Some(x)
  {
    FieldSlotPayload(mem, hp, r, f);
    Lookup(RecordFields(mem, hp, r), f).value
  }

  /** A decoder state: a record whose `___blob` field, when present, holds a
      view. */
  predicate IsState(mem: seq<Slot>, hp: int, s: Obj) {
    && IsRecord(mem, hp, s)
    && (BlobField in Tags(RecordFields(mem, hp, s)) ==> Load(mem, Field(mem, hp, s, BlobField)).Blob?)
  }

  /** The view held by a state. */
  function View(mem: seq<Slot>, hp: int, s: Obj): (v: Slot)
    requires IsState(mem, hp, s) && BlobField in Tags(RecordFields(mem, hp, s))
    ensures v.Blob?
  {
    Load(mem, Field(mem, hp, s, BlobField))
  }

  /** The view's first byte, if it has one, is inside the caller's buffer. */
  predicate Readable(v: Slot) {
    v.Blob? && (v.sz > 0 ==> 0 <= v.offset < |v.base|)
  }

  /** `r` is a state holding view `v`. */
  predicate HasView(mem: seq<Slot>, hp: int, r: Obj, v: Slot) {
    IsState(mem, hp, r) && BlobField in Tags(RecordFields(mem, hp, r)) && View(mem, hp, r) == v
  }

  /** The field list `fs` agrees with `fs0` on every field but `___blob`. */
  predicate SameExceptBlob(fs: seq<(Word, Obj)>, fs0: seq<(Word, Obj)>) {
    forall f :: f != BlobField ==> Lookup(fs, f) == Lookup(fs0, f)
  }

  /** A two-field record with fields `___1` and `___2`. */
  predicate IsPair(mem: seq<Slot>, hp: int, r: Obj) {
    IsRecord(mem, hp, r) && |RecordFields(mem, hp, r)| == 2 && Tags(RecordFields(mem, hp, r)) == {First, Second}
  }

  /** `r` is the pair a bitstream step returns: `___1` is `first`, and `___2`
      is a state with the fields `fs0` but for its view, which is `v`. */
  predicate Stepped(mem: seq<Slot>, hp: int, r: Obj, first: Obj, fs0: seq<(Word, Obj)>, v: Slot) {
    && IsPair(mem, hp, r)
    && Field(mem, hp, r, First) == first
    && var ss := Field(mem, hp, r, Second);
    && HasView(mem, hp, ss, v)
    && SameExceptBlob(RecordFields(mem, hp, ss), fs0)
  }

  // ----- the primitives ------------------------------------------------------

  /** `__consume(s)`: fatal when there is no `___blob` field or the view is
      empty; otherwise the pair of an 8-bit vector holding the first byte and
      the state `s` with its view advanced by one byte. */
  method Consume(a: Arena, s: Obj) returns (res: Result<Obj>)
    requires a.Valid() && IsState(a.heap[..], a.hp, s)
    requires BlobField in Tags(RecordFields(a.heap[..], a.hp, s)) ==> Readable(View(a.heap[..], a.hp, s))
    requires |RecordFields(a.heap[..], a.hp, s)| + 6 <= a.hp
    modifies a`hp, a.heap
    ensures a.Valid() && a.hp <= old(a.hp)
    ensures forall k :: old(a.hp) <= k < HeapSize ==> a.heap[k] == old(a.heap[k])
    ensures res.Ok? <==> old(BlobField in Tags(RecordFields(a.heap[..], a.hp, s)) && View(a.heap[..], a.hp, s).sz > 0)
    ensures res.Fail? ==> res.IsFatal() && a.hp == old(a.hp) && a.heap[..] == old(a.heap[..])
    ensures res.Ok? ==>
              var v := old(View(a.heap[..], a.hp, s));
              && a.hp == old(a.hp) - |old(RecordFields(a.heap[..], a.hp, s))| - 6
              && IsPair(a.heap[..], a.hp, res.value)
              && Load(a.heap[..], Field(a.heap[..], a.hp, res.value, First)) == Bv(8, v.base[v.offset])
              && Stepped(a.heap[..], a.hp, res.value, Field(a.heap[..], a.hp, res.value, First),
                         old(RecordFields(a.heap[..], a.hp, s)), Advance(v))
  {
    var sel := Select(a.heap[..], a.hp, s, BlobField);
    if sel.Fail? {
      return Fail(sel.failure);
    }
    var blob := Load(a.heap[..], sel.value);
    if blob.sz == 0 {
      return Fail(Fatal("<end-of-blob>"));
    }
    var r, _ := ConsumeByte(a, s, blob, RecordFields(a.heap[..], a.hp, s));
    res := Ok(r);
  }

  /** `__consume(s)` past its checks: `blob` is the non-empty view of `s`. */
  method ConsumeByte(a: Arena, s: Obj, blob: Slot, ghost fs0: seq<(Word, Obj)>) returns (r: Obj, v: Obj)
    requires a.Valid() && IsRecord(a.heap[..], a.hp, s) && RecordFields(a.heap[..], a.hp, s) == fs0
    requires BlobField in Tags(fs0) && Readable(blob) && blob.sz > 0 && |fs0| + 6 <= a.hp
    modifies a`hp, a.heap
    ensures a.Valid() && a.hp == old(a.hp) - |fs0| - 6
    ensures forall k :: old(a.hp) <= k < HeapSize ==> a.heap[k] == old(a.heap[k])
    ensures Live(a.heap[..], a.hp, v) && Load(a.heap[..], v) == Bv(8, blob.base[blob.offset])
    ensures Stepped(a.heap[..], a.hp, r, v, fs0, Advance(blob))
  {
    ghost var mem0, hp0 := a.heap[..], a.hp;
    var blobb;
    v, blobb := TakeByte(a, blob);
    ghost var mem1, hp1 := a.heap[..], a.hp;
    RecordFrame(mem0, mem1, hp0, hp1, s);
    r := FinishStep(a, s, v, blobb, fs0, Advance(blob));
    LiveFrame(mem1, a.heap[..], hp1, a.hp, v);
  }

  /** The two allocations of `__consume`: the 8-bit vector holding the view's
      first byte and the advanced view. */
  method TakeByte(a: Arena, blob: Slot) returns (v: Obj, blobb: Obj)
    requires a.Valid() && Readable(blob) && blob.sz > 0 && a.hp >= 2
    modifies a`hp, a.heap
    ensures a.Valid() && a.hp == old(a.hp) - 2
    ensures forall k :: old(a.hp) <= k < HeapSize ==> a.heap[k] == old(a.heap[k])
    ensures Live(a.heap[..], a.hp, v) && Load(a.heap[..], v) == Bv(8, blob.base[blob.offset])
    ensures Live(a.heap[..], a.hp, blobb) && Load(a.heap[..], blobb) == Advance(blob)
  {
    assert Pow2(8) == 256;
    v := a.NewBv(8, blob.base[blob.offset]);
    ghost var memV, hpV := a.heap[..], a.hp;
    blobb := a.NewBlob(blob.base, blob.offset + 1, blob.sz - 1);
    LiveFrame(memV, a.heap[..], hpV, a.hp, v);
  }

  /** `__unconsume(s)`: the pair of `__UNIT` and the state `s` with its view
      widened by one byte; fatal when there is no `___blob` field. */
  method Unconsume(a: Arena, s: Obj) returns (res: Result<Obj>)
    requires a.Valid() && IsState(a.heap[..], a.hp, s)
    requires |RecordFields(a.heap[..], a.hp, s)| + 5 <= a.hp
    modifies a`hp, a.heap
    ensures a.Valid() && a.hp <= old(a.hp)
    ensures forall k :: old(a.hp) <= k < HeapSize ==> a.heap[k] == old(a.heap[k])
    ensures res.Ok? <==> old(BlobField in Tags(RecordFields(a.heap[..], a.hp, s)))
    ensures res.Fail? ==> res.IsFatal() && a.hp == old(a.hp) && a.heap[..] == old(a.heap[..])
    ensures res.Ok? ==> a.hp == old(a.hp) - |old(RecordFields(a.heap[..], a.hp, s))| - 5
    ensures res.Ok? ==>
              Stepped(a.heap[..], a.hp, res.value, UNIT, old(RecordFields(a.heap[..], a.hp, s)),
                      Retreat(old(View(a.heap[..], a.hp, s))))
  {
    var sel := Select(a.heap[..], a.hp, s, BlobField);
    if sel.Fail? {
      return Fail(sel.failure);
    }
    var r := UnconsumeStep(a, s, Load(a.heap[..], sel.value));
    res := Ok(r);
  }

  /** `__unconsume(s)` past its check: `blob` is the view of `s`. */
  method UnconsumeStep(a: Arena, s: Obj, blob: Slot) returns (r: Obj)
    requires a.Valid() && IsRecord(a.heap[..], a.hp, s) && BlobField in Tags(RecordFields(a.heap[..], a.hp, s))
    requires blob.Blob? && |RecordFields(a.heap[..], a.hp, s)| + 5 <= a.hp
    modifies a`hp, a.heap
    ensures a.Valid() && a.hp == old(a.hp) - |old(RecordFields(a.heap[..], a.hp, s))| - 5
    ensures forall k :: old(a.hp) <= k < HeapSize ==> a.heap[k] == old(a.heap[k])
    ensures Stepped(a.heap[..], a.hp, r, UNIT, old(RecordFields(a.heap[..], a.hp, s)), Retreat(blob))
  {
    ghost var mem0, hp0 := a.heap[..], a.hp;
    var blobb := a.NewBlob(blob.base, blob.offset - 1, WordInc(blob.sz));
    RecordFrame(mem0, a.heap[..], hp0, a.hp, s);
    r := FinishStep(a, s, UNIT, blobb, RecordFields(mem0, hp0, s), Retreat(blob));
  }

  /** The tail `__consume` and `__unconsume` share: a clone of the state `s`
      with the new view `blobb` for `___blob`, paired with `first`. */
  method FinishStep(a: Arena, s: Obj, first: Obj, blobb: Obj, ghost fs0: seq<(Word, Obj)>, ghost v: Slot)
    returns (r: Obj)
    requires a.Valid() && IsRecord(a.heap[..], a.hp, s) && RecordFields(a.heap[..], a.hp, s) == fs0
    requires BlobField in Tags(fs0) && |fs0| + 4 <= a.hp
    requires Live(a.heap[..], a.hp, first) && Live(a.heap[..], a.hp, blobb)
    requires Load(a.heap[..], blobb) == v && v.Blob?
    modifies a`hp, a.heap
    ensures a.Valid() && a.hp == old(a.hp) - |fs0| - 4
    ensures forall k :: old(a.hp) <= k < HeapSize ==> a.heap[k] == old(a.heap[k])
    ensures Stepped(a.heap[..], a.hp, r, first, fs0, v)
  {
    ghost var mem1, hp1 := a.heap[..], a.hp;
    var ss := CloneWithView(a, s, blobb);
    ghost var mem2, hp2 := a.heap[..], a.hp;
    LiveFrame(mem1, mem2, hp1, hp2, first);
    r := MakePair(a, first, ss);
    LiveFrame(mem1, a.heap[..], hp1, a.hp, blobb);
    UpdatedState(a.heap[..], a.hp, ss, fs0, blobb);
  }

  /** `__RECORD_BEGIN_UPDATE(ss, s)`, `__RECORD_UPDATE(___blob, blobb)`,
      `__RECORD_END_UPDATE(ss)` for a state `s` that has a `___blob`
      field. */
  method CloneWithView(a: Arena, s: Obj, blobb: Obj) returns (ss: Obj)
    requires a.Valid() && IsRecord(a.heap[..], a.hp, s) && BlobField in Tags(RecordFields(a.heap[..], a.hp, s))
    requires Live(a.heap[..], a.hp, blobb)
    requires |RecordFields(a.heap[..], a.hp, s)| + 1 <= a.hp
    modifies a`hp, a.heap
    ensures a.Valid() && a.hp == old(a.hp) - |old(RecordFields(a.heap[..], a.hp, s))| - 1
    ensures forall k :: old(a.hp) <= k < HeapSize ==> a.heap[k] == old(a.heap[k])
    ensures IsRecord(a.heap[..], a.hp, ss)
    ensures RecordFields(a.heap[..], a.hp, ss) == Update(old(RecordFields(a.heap[..], a.hp, s)), BlobField, blobb)
  {
    ghost var fs0 := RecordFields(a.heap[..], a.hp, s);
    var ups := [(BlobField, blobb)];
    assert ups[..0] == [];
    assert UpdateAll(fs0, ups) == Update(fs0, BlobField, blobb);
    ss := UpdateRecord(a, s, ups);
  }

  /** `__RECORD_BEGIN(a, 2)`, `__RECORD_ADD(___1, first)`,
      `__RECORD_ADD(___2, second)`, `__RECORD_END(a, 2)`. */
  method MakePair(a: Arena, first: Obj, second: Obj) returns (r: Obj)
    requires a.Valid() && a.hp >= 3 && Live(a.heap[..], a.hp, first) && IsRecord(a.heap[..], a.hp, second)
    modifies a`hp, a.heap
    ensures a.Valid() && a.hp == old(a.hp) - 3
    ensures forall k :: old(a.hp) <= k < HeapSize ==> a.heap[k] == old(a.heap[k])
    ensures IsPair(a.heap[..], a.hp, r)
    ensures Field(a.heap[..], a.hp, r, First) == first && Field(a.heap[..], a.hp, r, Second) == second
    ensures IsRecord(a.heap[..], a.hp, second)
    ensures RecordFields(a.heap[..], a.hp, second) == old(RecordFields(a.heap[..], a.hp, second))
  {
    ghost var mem0, hp0 := a.heap[..], a.hp;
    r := BuildRecord(a, [(First, first), (Second, second)]);
    PairFields(a.heap[..], a.hp, r, first, second);
    RecordFrame(mem0, a.heap[..], hp0, a.hp, second);
  }

  /** `eval`'s initial state: a one-field record whose `___blob` is the view
      of the whole input `(blob, sz)`. */
  method InitialState(a: Arena, input: seq<Byte>, sz: Word) returns (s: Obj)
    requires a.Valid() && a.hp >= 3
    modifies a`hp, a.heap
    ensures a.Valid() && a.hp == old(a.hp) - 3
    ensures forall k :: old(a.hp) <= k < HeapSize ==> a.heap[k] == old(a.heap[k])
    ensures IsRecord(a.heap[..], a.hp, s) && Tags(RecordFields(a.heap[..], a.hp, s)) == {BlobField}
    ensures HasView(a.heap[..], a.hp, s, Blob(input, 0, sz))
  {
    var b := a.NewBlob(input, 0, sz);
    ghost var mem1, hp1 := a.heap[..], a.hp;
    s := BuildRecord(a, [(BlobField, b)]);
    LiveFrame(mem1, a.heap[..], hp1, a.hp, b);
    assert Reverse([(BlobField, b)]) == [(BlobField, b)];
    assert Lookup(RecordFields(a.heap[..], a.hp, s), BlobField) == Some(b);
  }

  // ----- lemmas --------------------------------------------------------------

  /** The fields of the pair record built from `___1 = x` and `___2 = y`. */
  lemma PairFields(mem: seq<Slot>, hp: int, r: Obj, x: Obj, y: Obj)
    requires IsRecord(mem, hp, r) && RecordFields(mem, hp, r) == Reverse([(First, x), (Second, y)])
    ensures IsPair(mem, hp, r) && Field(mem, hp, r, First) == x && Field(mem, hp, r, Second) == y
  {
    var fs := RecordFields(mem, hp, r);
    assert [(First, x), (Second, y)][..1] == [(First, x)];
    assert fs == [(Second, y), (First, x)];
    assert Tags(fs) == {First, Second} by {
      assert fs[0].0 == Second && fs[1].0 == First;
    }
    IndexOfIs(fs, Second, 0);
    IndexOfIs(fs, First, 1);
  }

  /** A record whose fields are `fs0` with `___blob` updated to a view
      `blobb` holds that view and agrees with `fs0` elsewhere. */
  lemma UpdatedState(mem: seq<Slot>, hp: int, ss: Obj, fs0: seq<(Word, Obj)>, blobb: Obj)
    requires IsRecord(mem, hp, ss) && RecordFields(mem, hp, ss) == Update(fs0, BlobField, blobb)
    requires Live(mem, hp, blobb) && Load(mem, blobb).Blob?
    ensures SameExceptBlob(RecordFields(mem, hp, ss), fs0)
    ensures HasView(mem, hp, ss, Load(mem, blobb))
  {
    TagsUpdate(fs0, BlobField, blobb);
    LookupUpdateSame(fs0, BlobField, blobb);
    forall f | f != BlobField
      ensures Lookup(RecordFields(mem, hp, ss), f) == Lookup(fs0, f)
    {
      LookupUpdateOther(fs0, BlobField, blobb, f);
    }
  }

  /** `__unconsume` applied to the state a successful `__consume(s)`
      returned gives a state with the view of `s` and, but for the view,
      the fields of `s`.  `mem1, hp1` is the heap after the `__consume`,
      `mem2, hp2` the heap after the `__unconsume`. */
  lemma UnconsumeAfterConsume(mem1: seq<Slot>, hp1: int, r1: Obj, x: Obj, fs0: seq<(Word, Obj)>, v: Slot,
                              mem2: seq<Slot>, hp2: int, r2: Obj)
    requires v.Blob? && v.sz > 0
    requires Stepped(mem1, hp1, r1, x, fs0, Advance(v))
    requires var ss := Field(mem1, hp1, r1, Second);
             Stepped(mem2, hp2, r2, UNIT, RecordFields(mem1, hp1, ss), Retreat(View(mem1, hp1, ss)))
    ensures var ss2 := Field(mem2, hp2, r2, Second);
            HasView(mem2, hp2, ss2, v) && SameExceptBlob(RecordFields(mem2, hp2, ss2), fs0)
  {
    RetreatAdvance(v);
    var fs1 := RecordFields(mem1, hp1, Field(mem1, hp1, r1, Second));
    var fs2 := RecordFields(mem2, hp2, Field(mem2, hp2, r2, Second));
    forall f | f != BlobField
      ensures Lookup(fs2, f) == Lookup(fs0, f)
    {
      assert Lookup(fs2, f) == Lookup(fs1, f);
    }
  }

  /** A state stays the same state, with the same fields and view, while the
      slots from its header up are left alone. */
  lemma StateFrame(mem: seq<Slot>, mem': seq<Slot>, hp: int, hp': int, s: Obj)
    requires IsState(mem, hp, s) && WellFormed(mem', hp') && hp' <= hp
    requires forall k :: hp <= k < HeapSize ==> mem'[k] == mem[k]
    ensures IsState(mem', hp', s) && RecordFields(mem', hp', s) == RecordFields(mem, hp, s)
    ensures BlobField in Tags(RecordFields(mem, hp, s)) ==> View(mem', hp', s) == View(mem, hp, s)
  {
    RecordFrame(mem, mem', hp, hp', s);
    if BlobField in Tags(RecordFields(mem, hp, s)) {
      LiveFrame(mem, mem', hp, hp', Field(mem, hp, s, BlobField));
    }
  }
}
