/** The arena of detail/codegen/c0/runtime.h: a fixed array of slots and the
   bump pointer `hp`, which starts at the top and only moves down until
   `__resetHeap`; the value-building macros; closures and ropes. */
module Memory {
  import opened Words
  import opened Outcome
  import opened Fields
  import opened Objects

  /** Number of slots `__ROPE_FROMCSTRING` takes for the bytes of a string
      of length `len`: the least `n` with `n * sizeof(__unwrapped_obj) >= len`. */
  function RopeLeafSlots(len: nat): (n: nat)
    ensures n * SlotBytes >= len
    ensures n == 0 || (n - 1) * SlotBytes < len
  {
    var n := len / SlotBytes;
    if len % SlotBytes == 0 then n else n + 1
  }

  /** `strlen(cs)`: the number of bytes before the first NUL of a
      NUL-terminated buffer. */
  function Strlen(cs: seq<Byte>): (n: nat)
    requires 0 in cs
    ensures n < |cs| && cs[n] == 0 && forall i :: 0 <= i < n ==> cs[i] != 0
    decreases |cs|
  {
    if cs[0] == 0 then 0
    else
      assert 0 in cs[1..] by {
        var k :| 0 <= k < |cs| && cs[k] == 0;
        assert cs[1..][k - 1] == 0;
      }
      1 + Strlen(cs[1..])
  }

  /** The bytes of `s` that `memcpy` puts into the `i`-th slot of a rope
      leaf. */
  function Chunk(s: seq<Byte>, i: nat): seq<Byte>
    requires i < RopeLeafSlots(|s|)
  {
    var lo := i * SlotBytes;
    var hi := if (i + 1) * SlotBytes <= |s| then (i + 1) * SlotBytes else |s|;
    s[lo..hi]
  }

  /** Every byte of the string lands in the slot and at the offset given by
      dividing its position by the slot size. */
  lemma ChunkAt(s: seq<Byte>, b: nat)
    requires b < |s|
    ensures b / SlotBytes < RopeLeafSlots(|s|)
    ensures |Chunk(s, b / SlotBytes)| > b % SlotBytes
    ensures Chunk(s, b / SlotBytes)[b % SlotBytes] == s[b]
  {
    var i := b / SlotBytes;
    assert i * SlotBytes <= b < (i + 1) * SlotBytes;
  }

  class Arena {
    /** `heap` */
    var heap: array<Slot>
    /** `hp`, as the index of the lowest allocated slot (`HeapSize` when
        nothing is allocated). */
    var hp: int

    ghost predicate Valid()
      reads this, heap
    {
      heap.Length == HeapSize && WellFormed(heap[..], hp)
    }

    /** The arena at program start: `hp = &heap[__RT_HEAP_SIZE]`. */
    constructor ()
      ensures Valid() && fresh(heap) && hp == HeapSize
    {
      heap := new Slot[HeapSize];
      hp := HeapSize;
    }

    // ----- allocation ----------------------------------------------------

    /** `__ALLOC1()`: lowers `hp` by one and returns it.  The overflow check
        is missing in C, so the caller must know that a slot is left. */
    method Alloc1() returns (o: Addr)
      requires 1 <= hp <= HeapSize
      modifies this`hp
      ensures hp == old(hp) - 1 && o == SlotAddr(hp)
    {
      hp := hp - 1;
      o := SlotAddr(hp);
    }

    /** `__ALLOCN(n)`: lowers `hp` by `n` and returns it. */
    method AllocN(n: nat) returns (o: Addr)
      requires n <= hp <= HeapSize
      modifies this`hp
      ensures hp == old(hp) - n && o == SlotAddr(hp)
    {
      hp := hp - n;
      o := SlotAddr(hp);
    }

    /** `__ALLOC0()`: the current `hp`, without moving it. */
    method Alloc0() returns (o: Addr)
      ensures o == SlotAddr(hp)
    {
      o := SlotAddr(hp);
    }

    /** `__resetHeap()`: every value allocated so far becomes garbage; the
        slots keep their contents. */
    method ResetHeap()
      requires heap.Length == HeapSize
      modifies this`hp
      ensures hp == HeapSize && Valid()
    {
      hp := HeapSize;
    }

    /** The shape shared by the value macros: take one slot with `__ALLOC1`,
        fill it and return `__WRAP` of it. */
    method Push(s: Slot) returns (x: Obj)
      requires Valid() && hp >= 1 && SlotOk(heap[..], hp - 1, s)
      modifies this`hp, heap
      ensures Valid()
      ensures hp == old(hp) - 1 && heap[..] == old(heap[..])[hp := s]
      ensures x == RefTo(hp) && InHeap(x) && SlotOf(x) == hp && Load(heap[..], x) == s
    {
      ghost var mem := heap[..];
      var o := Alloc1();
      heap[SlotIndex(o)] := s;
      assert heap[..] == mem[hp := s];
      WellFormedAlloc(mem, hp + 1, s);
      x := Wrap(o);
    }

    /** `__INT_INIT` ... `__INT_END` */
    method NewInt(v: I64) returns (x: Obj)
      requires Valid() && hp >= 1
      modifies this`hp, heap
      ensures Valid()
      ensures hp == old(hp) - 1 && heap[..] == old(heap[..])[hp := Int(v)]
      ensures x == RefTo(hp) && TagOf(heap[..], hp, x) == INT && Load(heap[..], x).value == v
    {
      x := Push(Int(v));
    }

    /** `__LABEL_INIT` ... `__LABEL_END` */
    method NewLabel(f: nat) returns (x: Obj)
      requires Valid() && hp >= 1
      modifies this`hp, heap
      ensures Valid()
      ensures hp == old(hp) - 1 && heap[..] == old(heap[..])[hp := Label(f)]
      ensures x == RefTo(hp) && TagOf(heap[..], hp, x) == LABEL
    {
      x := Push(Label(f));
    }

    /** `__BV_INIT(vec)` ... `__BV_END(_, sz)`.  Generated code only builds
        bit-vectors whose value fits their width. */
    method NewBv(sz: Word, vec: Word) returns (x: Obj)
      requires Valid() && hp >= 1 && InWidth(vec, sz)
      modifies this`hp, heap
      ensures Valid()
      ensures hp == old(hp) - 1 && heap[..] == old(heap[..])[hp := Bv(sz, vec)]
      ensures x == RefTo(hp) && Live(heap[..], hp, x) && Load(heap[..], x) == Bv(sz, vec)
      ensures TagOf(heap[..], hp, x) == BV
    {
      x := Push(Bv(sz, vec));
    }

    /** `__TAGGED_INIT(con, payload)` ... `__TAGGED_END` */
    method NewTagged(con: Word, payload: Obj) returns (x: Obj)
      requires Valid() && hp >= 1 && Live(heap[..], hp, payload)
      modifies this`hp, heap
      ensures Valid()
      ensures hp == old(hp) - 1 && heap[..] == old(heap[..])[hp := Tagged(con, payload)]
      ensures x == RefTo(hp) && TagOf(heap[..], hp, x) == TAGGED
      ensures CaseTag(heap[..], hp, x) == Ok(con) && Decon(heap[..], hp, x) == payload
    {
      x := Push(Tagged(con, payload));
    }

    /** `__BLOB_INIT(buf, size)` ... `__BLOB_END`: a view of `size` bytes of
        the caller's buffer `base`, starting at `offset`. */
    method NewBlob(base: seq<Byte>, offset: int, size: Word) returns (x: Obj)
      requires Valid() && hp >= 1
      modifies this`hp, heap
      ensures Valid()
      ensures hp == old(hp) - 1 && heap[..] == old(heap[..])[hp := Blob(base, offset, size)]
      ensures x == RefTo(hp) && Live(heap[..], hp, x) && Load(heap[..], x) == Blob(base, offset, size)
      ensures TagOf(heap[..], hp, x) == BLOB
    {
      x := Push(Blob(base, offset, size));
    }

    // ----- closures ------------------------------------------------------

    /** `__CLOSURE_ADD(value)`: a new slot holding a copy of `value`'s slot
        (captured by value). */
    method ClosureAdd(value: Obj)
      requires Valid() && hp >= 1 && Live(heap[..], hp, value)
      modifies this`hp, heap
      ensures Valid()
      ensures hp == old(hp) - 1 && heap[..] == old(heap[..])[hp := old(Load(heap[..], value))]
    {
      var s := Load(heap[..], value);
      assert SlotOk(heap[..], hp - 1, s) by {
        if InHeap(value) {
          assert SlotOkAt(heap[..], SlotOf(value));
          SlotOkLower(heap[..], hp - 1, SlotOf(value), s);
        }
      }
      var o := Alloc1();
      ghost var mem := heap[..];
      heap[SlotIndex(o)] := s;
      WellFormedAlloc(mem, hp + 1, s);
    }

    /** `__CLOSURE_END(_, n)`: the closure header below the `n` captured
        slots; `env` is the slot just above it. */
    method ClosureEnd(n: Word) returns (c: Obj)
      requires Valid() && hp >= 1 && hp + n <= HeapSize
      requires forall k :: hp <= k < hp + n ==> !heap[k].Raw?
      modifies this`hp, heap
      ensures Valid()
      ensures hp == old(hp) - 1 && heap[..] == old(heap[..])[hp := Closure(n, SlotAddr(hp + 1))]
      ensures c == RefTo(hp) && TagOf(heap[..], hp, c) == CLOSURE
    {
      c := Push(Closure(n, SlotAddr(hp)));
    }

    /** A whole `__CLOSURE_BEGIN` / `__CLOSURE_ADD`* / `__CLOSURE_END` block.
        The captured slots are copies of the values' slots in reverse order:
        the last value added ends up in `env[0]`. */
    method BuildClosure(values: seq<Obj>) returns (c: Obj)
      requires Valid() && |values| < hp && |values| < Two64
      requires AllLive(heap[..], hp, values)
      modifies this`hp, heap
      ensures Valid()
      ensures hp == old(hp) - |values| - 1
      ensures c == RefTo(hp) && Load(heap[..], c) == Closure(|values|, SlotAddr(hp + 1))
      ensures forall k :: hp < k < old(hp) ==>
                heap[k] == Captures(old(heap[..]), values)[old(hp) - 1 - k]
      ensures forall k :: old(hp) <= k < HeapSize ==> heap[k] == old(heap[k])
    {
      ghost var mem0, hp0 := heap[..], hp;
      ghost var caps := Captures(mem0, values);
      var j := 0;
      while j < |values|
        invariant 0 <= j <= |values|
        invariant Valid() && hp == hp0 - j
        invariant forall k :: hp0 <= k < HeapSize ==> heap[k] == mem0[k]
        invariant forall k :: hp <= k < hp0 ==> heap[k] == caps[hp0 - 1 - k] && !heap[k].Raw?
      {
        LiveFrame(mem0, heap[..], hp0, hp, values[j]);
        ClosureAdd(values[j]);
        j := j + 1;
      }
      c := ClosureEnd(|values|);
    }

    // ----- ropes ---------------------------------------------------------

    /** `__ROPE_CONCAT(a, b)` ... `__ROPE_END` */
    method RopeConcat(a: Obj, b: Obj) returns (r: Obj)
      requires Valid() && hp >= 1 && Live(heap[..], hp, a) && Live(heap[..], hp, b)
      modifies this`hp, heap
      ensures Valid()
      ensures hp == old(hp) - 1 && heap[..] == old(heap[..])[hp := RopeBranch(a, b)]
      ensures r == RefTo(hp) && TagOf(heap[..], hp, r) == ROPEBRANCH
    {
      r := Push(RopeBranch(a, b));
    }

    /** `__ROPE_FROMCSTRING(cs)` ... `__ROPE_END`: the leaf header, then the
        `strlen(cs)` bytes before the terminator copied into
        `RopeLeafSlots(strlen(cs))` slots below it. */
    method RopeFromString(cs: seq<Byte>) returns (r: Obj)
      requires Valid() && 0 in cs && Strlen(cs) < Two64 && hp >= 1 + RopeLeafSlots(Strlen(cs))
      modifies this`hp, heap
      ensures Valid()
      ensures var s := cs[..Strlen(cs)];
              && hp == old(hp) - 1 - RopeLeafSlots(|s|)
              && r == RefTo(old(hp) - 1) && Load(heap[..], r) == RopeLeaf(SlotAddr(hp), |s|)
              && forall i :: 0 <= i < RopeLeafSlots(|s|) ==> heap[hp + i] == Raw(Chunk(s, i))
      ensures forall k :: old(hp) <= k < HeapSize ==> heap[k] == old(heap[k])
    {
      ghost var mem, top := heap[..], hp;
      var o := Alloc1();
      var len := Strlen(cs);
      var s := cs[..len];
      assert |s| == len;
      var n := RopeLeafSlots(len);
      var p := AllocN(n);
      assert hp == top - 1 - n && p == SlotAddr(hp);
      CopyChunks(hp, s);
      ghost var mid := heap[..];
      assert forall i :: 0 <= i < n ==> mid[hp + i] == Raw(Chunk(s, i));
      heap[hp + n] := RopeLeaf(p, len);
      ghost var mem' := heap[..];
      assert mem' == mid[hp + n := RopeLeaf(p, len)];
      assert forall j :: top <= j < HeapSize ==> mem'[j] == mem[j];
      assert forall k :: hp <= k < top ==> mem'[k].Raw? || mem'[k].RopeLeaf?;
      WellFormedLeaves(mem, mem', top, hp);
      r := Wrap(o);
    }

    /** `memcpy` of `n` whole slots from slot `src` to slot `dst`, for
        non-overlapping ranges with `dst` below `src`. */
    method CopySlots(dst: int, src: int, n: nat)
      requires heap.Length == HeapSize && 0 <= dst && dst + n <= src && src + n <= HeapSize
      modifies heap
      ensures forall k :: 0 <= k < dst ==> heap[k] == old(heap[k])
      ensures forall k :: dst + n <= k < HeapSize ==> heap[k] == old(heap[k])
      ensures forall k :: dst <= k < dst + n ==> heap[k] == old(heap[src + k - dst])
    {
      var i := 0;
      while i < n
        invariant 0 <= i <= n
        invariant forall k :: 0 <= k < dst ==> heap[k] == old(heap[k])
        invariant forall k :: dst + i <= k < HeapSize ==> heap[k] == old(heap[k])
        invariant forall k :: dst <= k < dst + i ==> heap[k] == old(heap[src + k - dst])
      {
        heap[dst + i] := heap[src + i];
        i := i + 1;
      }
    }

    /** The `memcpy` of `__ROPE_FROMCSTRING`: the bytes of `s`, slot by
        slot, from slot `pk` up. */
    method CopyChunks(pk: int, s: seq<Byte>)
      requires heap.Length == HeapSize && 0 <= pk && pk + RopeLeafSlots(|s|) <= HeapSize
      modifies heap
      ensures forall k :: 0 <= k < HeapSize ==>
                heap[k] == if pk <= k < pk + RopeLeafSlots(|s|) then Raw(Chunk(s, k - pk)) else old(heap[k])
      ensures forall i :: 0 <= i < RopeLeafSlots(|s|) ==> heap[pk + i] == Raw(Chunk(s, i))
    {
      var n := RopeLeafSlots(|s|);
      var i := 0;
      while i < n
        invariant 0 <= i <= n
        invariant forall k :: 0 <= k < HeapSize ==>
                    heap[k] == if pk <= k < pk + i then Raw(Chunk(s, k - pk)) else old(heap[k])
      {
        heap[pk + i] := Raw(Chunk(s, i));
        i := i + 1;
      }
      forall j | 0 <= j < n ensures heap[pk + j] == Raw(Chunk(s, j)) {
        assert pk <= pk + j < pk + n;
      }
    }
  }

  /** The slots a closure over `values` copies, in the order given. */
  function Captures(mem: seq<Slot>, values: seq<Obj>): (r: seq<Slot>)
    requires |mem| == HeapSize && forall i :: 0 <= i < |values| ==> Addressable(values[i])
    ensures |r| == |values| && forall i :: 0 <= i < |values| ==> r[i] == Load(mem, values[i])
  {
    seq(|values|, i requires 0 <= i < |values| => Load(mem, values[i]))
  }

  /** `__CLOSURE_REF(c, n)`: the external reference of the `n`-th captured
      slot of the closure `c`. */
  function ClosureRef(mem: seq<Slot>, hp: int, c: Obj, n: nat): (x: Obj)
    requires WellFormed(mem, hp) && Live(mem, hp, c) && Load(mem, c).Closure? && n < Load(mem, c).sz
    ensures InHeap(x) && SlotOf(x) == SlotIndex(Load(mem, c).env) + n && SlotOf(c) < SlotOf(x)
    ensures Live(mem, hp, x)
  {
    assert SlotOkAt(mem, SlotOf(c));
    Wrap(Load(mem, c).env + n * SlotWords)
  }
}
