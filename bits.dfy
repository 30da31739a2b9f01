/** The bit-vector primitives of detail/codegen/c0/runtime.c: `__and`,
   `__concat`, `__equal`, `__not` and `__slice`.  A bit-vector value is a
   `__word`; the C operators on words (`&`, `|`, `~`, `<<`, `>>`) are
   defined here on the numbers they denote. */
module Bits {
  import opened Words
  import opened Outcome
  import opened Objects
  import opened Memory

  // ----- the C word operators ----------------------------------------------

  /** `a & b`, bit by bit from the lowest bit up. */
  function BitAnd(a: nat, b: nat): (r: nat)
    ensures r <= a && r <= b
    decreases a
  {
    if a == 0 || b == 0 then 0
    else 2 * BitAnd(a / 2, b / 2) + (if a % 2 == 1 && b % 2 == 1 then 1 else 0)
  }

  /** `a | b`, bit by bit from the lowest bit up. */
  function BitOr(a: nat, b: nat): (r: nat)
    ensures a <= r && b <= r
    decreases a + b
  {
    if a == 0 then b
    else if b == 0 then a
    else 2 * BitOr(a / 2, b / 2) + (if a % 2 == 1 || b % 2 == 1 then 1 else 0)
  }

  /** `~a` on a `__word`. */
  function Complement(a: Word): (r: Word)
    ensures r + a == Two64 - 1
  {
    Two64 - 1 - a
  }

  /** `a << n` on a `__word` (bits shifted past bit 63 are lost). */
  function ShiftLeft(a: Word, n: nat): (r: Word)
    requires n < 64
  {
    (a * Pow2(n)) % Two64
  }

  /** `a >> n` on a `__word`. */
  function ShiftRight(a: Word, n: nat): (r: Word)
    requires n < 64
    ensures r <= a
  {
    a / Pow2(n)
  }

  /** The `sz` low bits set: what `(1 << sz) - 1` is meant to be. */
  function Mask(sz: nat): (m: nat)
    ensures m + 1 == Pow2(sz)
  {
    Pow2(sz) - 1
  }

  /** `(1 << sz) - 1` as runtime.c computes it: a shift of the C `int` 1,
      defined only while the result fits a 32-bit `int`. */
  function IntMask(sz: int): (r: Result<nat>)
    ensures r.Ok? <==> 0 <= sz <= 30
    ensures r.Ok? ==> r.value == Mask(sz)
  {
    if 0 <= sz <= 30 then Ok(Mask(sz)) else Fail(Undefined("int shift out of range"))
  }

  // ----- vector operations ---------------------------------------------------

  /** The value of `__not`: `~a` masked to `sz` bits. */
  function NotVec(a: Word, sz: nat): (r: Word)
    ensures r < Pow2(sz)
  {
    AndMask(Complement(a), sz);
    BitAnd(Complement(a), Mask(sz))
  }

  /** The value of `__slice`: `(tok >> offs) & mask(sz)`, i.e. bits
      `offs .. offs+sz-1` of `tok`. */
  function SliceVec(tok: Word, offs: nat, sz: nat): (r: Word)
    requires offs < 64
    ensures r == (tok / Pow2(offs)) % Pow2(sz)
  {
    AndMask(ShiftRight(tok, offs), sz);
    BitAnd(ShiftRight(tok, offs), Mask(sz))
  }

  /** The value of `__concat`: `(a << szb) | b`. */
  function ConcatVec(a: Word, b: Word, szb: nat): (r: Word)
    requires szb < 64
    ensures b < Pow2(szb) && a * Pow2(szb) < Two64 ==> r == a * Pow2(szb) + b
  {
    Pow2Word();
    BitOrWidth(ShiftLeft(a, szb), b, 64);
    var v := BitOr(ShiftLeft(a, szb), b);
    if b < Pow2(szb) && a * Pow2(szb) < Two64 then
      ShiftLeftExact(a, szb);
      OrShifted(a, b, szb);
      v
    else v
  }

  /** `__not` as written, with its `int` mask. */
  function NotAsWritten(a: Word, sz: int): (r: Result<Word>)
    ensures r.Ok? <==> 0 <= sz <= 30
    ensures r.Ok? ==> r.value == NotVec(a, sz)
  {
    var m :- IntMask(sz);
    Ok(BitAnd(Complement(a), m))
  }

  /** `__slice` as written, with its `int` mask. */
  function SliceAsWritten(tok: Word, offs: nat, sz: int): (r: Result<Word>)
    requires offs < 64
    ensures r.Ok? <==> 0 <= sz <= 30
    ensures r.Ok? ==> r.value == SliceVec(tok, offs, sz)
  {
    var m :- IntMask(sz);
    Ok(BitAnd(ShiftRight(tok, offs), m))
  }

  // ----- lemmas about the word operators -------------------------------------

  /** A product with a factor at least one is at least the other factor. */
  lemma MulAtLeast(d: nat, k: int)
    requires k >= 1
    ensures d * k >= d
  {
    assert d * k == d * (k - 1) + d;
  }

  /** Multiplication by a natural number is monotonic. */
  lemma MulMonotone(a: int, b: int, c: nat)
    requires a <= b
    ensures a * c <= b * c
  {
    assert b * c - a * c == (b - a) * c;
  }

  /** Euclidean division is determined by quotient and remainder. */
  lemma DivModUnique(x: int, d: int, q: int, r: int)
    requires d > 0 && x == d * q + r && 0 <= r < d
    ensures x / d == q && x % d == r
  {
    var q', r' := x / d, x % d;
    assert x == d * q' + r';
    var k := q - q';
    assert d * k == r' - r by {
      assert d * q - d * q' == d * (q - q');
    }
    if k > 0 {
      MulAtLeast(d, k);
    }
  }

  /** Halving commutes with reduction modulo an even power of two. */
  lemma ModHalf(x: nat, k: nat)
    requires k > 0
    ensures x % Pow2(k) == 2 * ((x / 2) % Pow2(k - 1)) + x % 2
  {
    var p := Pow2(k - 1);
    var q, s := (x / 2) / p, (x / 2) % p;
    assert x / 2 == p * q + s;
    assert x == 2 * (x / 2) + x % 2;
    assert x == (2 * p) * q + (2 * s + x % 2) by {
      assert 2 * (p * q) == (2 * p) * q;
    }
    DivModUnique(x, 2 * p, q, 2 * s + x % 2);
  }

  /** Masking with `2^k - 1` keeps the `k` low bits. */
  lemma {:induction false} AndMask(x: nat, k: nat)
    ensures BitAnd(x, Pow2(k) - 1) == x % Pow2(k)
    decreases k
  {
    if k == 0 {
      assert Pow2(k) == 1;
    } else if x == 0 {
      assert BitAnd(x, Pow2(k) - 1) == 0;
    } else {
      var m, h := Pow2(k) - 1, Pow2(k - 1) - 1;
      DivModUnique(m, 2, h, 1);
      AndMask(x / 2, k - 1);
      ModHalf(x, k);
      calc {
        BitAnd(x, m);
        2 * BitAnd(x / 2, h) + x % 2;
        2 * ((x / 2) % Pow2(k - 1)) + x % 2;
        x % Pow2(k);
      }
    }
  }

  /** Or-ing two numbers below `2^n` stays below `2^n`. */
  lemma {:induction false} BitOrWidth(a: nat, b: nat, n: nat)
    requires a < Pow2(n) && b < Pow2(n)
    ensures BitOr(a, b) < Pow2(n)
    decreases a + b
  {
    if a != 0 && b != 0 {
      assert n > 0;
      BitOrWidth(a / 2, b / 2, n - 1);
    }
  }

  /** Or-ing into the zero low bits of a shifted number is addition. */
  lemma {:induction false} OrShifted(a: nat, b: nat, k: nat)
    requires b < Pow2(k)
    ensures BitOr(a * Pow2(k), b) == a * Pow2(k) + b
    decreases k
  {
    if k > 0 && a != 0 && b != 0 {
      var x := a * Pow2(k - 1);
      assert a * Pow2(k) == 2 * x;
      assert (2 * x) / 2 == x && (2 * x) % 2 == 0;
      OrShifted(a, b / 2, k - 1);
    }
  }

  /** `~a` masked to a width that `a` fits in is `mask - a`. */
  lemma NotValue(a: Word, sz: nat)
    requires InWidth(a, sz)
    ensures NotVec(a, sz) == Mask(sz) - a
  {
    var p, q := Pow2(sz), Pow2(64 - sz);
    Pow2Add(sz, 64 - sz);
    Pow2Word();
    ComplementLow(a, p, q);
    AndMask(Complement(a), sz);
  }

  /** Below a power of two `p` dividing `p * q`, the complement of `a`
      within `p * q` has low part `p - 1 - a`. */
  lemma ComplementLow(a: int, p: int, q: int)
    requires 0 <= a < p && 1 <= q
    ensures (p * q - 1 - a) % p == p - 1 - a
  {
    assert p * q - 1 - a == p * (q - 1) + (p - 1 - a) by {
      assert p * q - p == p * (q - 1);
    }
    DivModUnique(p * q - 1 - a, p, q - 1, p - 1 - a);
  }

  /** A number of `sza` bits shifted up by `szb` bits, plus a number of
      `szb` bits, fits in `sza + szb` bits. */
  lemma ShiftedBound(a: nat, sza: nat, b: nat, szb: nat)
    requires a < Pow2(sza) && b < Pow2(szb)
    ensures a * Pow2(szb) + b < Pow2(sza + szb)
  {
    var p := Pow2(szb);
    Pow2Add(sza, szb);
    MulMonotone(a, Pow2(sza) - 1, p);
    assert (Pow2(sza) - 1) * p == Pow2(sza) * p - p;
  }

  /** The value of `__concat` of two in-width vectors whose widths add up to
      at most 64: `a * 2^szb + b`, in width `sza + szb`. */
  lemma ConcatValue(a: Word, sza: nat, b: Word, szb: nat)
    requires szb < 64 && sza + szb <= 64 && InWidth(a, sza) && InWidth(b, szb)
    ensures ConcatVec(a, b, szb) == a * Pow2(szb) + b
    ensures InWidth(ConcatVec(a, b, szb), sza + szb)
  {
    ShiftedBound(a, sza, b, szb);
    Pow2Monotone(sza + szb, 64);
    Pow2Word();
    ShiftLeftExact(a, szb);
    OrShifted(a, b, szb);
  }

  /** A left shift that loses no bits is a multiplication. */
  lemma ShiftLeftExact(a: Word, n: nat)
    requires n < 64 && a * Pow2(n) < Two64
    ensures ShiftLeft(a, n) == a * Pow2(n)
  {
    var x := a * Pow2(n);
    DivModUnique(x, Two64, 0, x);
  }

  /** `__not` twice gives back any in-width vector. */
  lemma NotNot(a: Word, sz: nat)
    requires InWidth(a, sz)
    ensures NotVec(NotVec(a, sz), sz) == a
  {
    NotValue(a, sz);
    NotValue(NotVec(a, sz), sz);
  }

  /** Dropping the `l` low bits of an `l + h`-bit number leaves an `h`-bit
      number. */
  lemma QuotientBound(v: nat, l: nat, h: nat)
    requires v < Pow2(l + h)
    ensures v / Pow2(l) < Pow2(h)
  {
    var p := Pow2(l);
    Pow2Add(h, l);
    var hi := v / p;
    assert v >= p * hi;
    if hi >= Pow2(h) {
      MulMonotone(Pow2(h), hi, p);
    }
  }

  /** Concatenating the high and the low slice of a vector gives the vector
      back. */
  lemma ConcatSlices(v: Word, l: nat, h: nat)
    requires l < 64 && l + h <= 64 && InWidth(v, l + h)
    ensures ConcatVec(SliceVec(v, l, h), SliceVec(v, 0, l), l) == v
  {
    var hi, lo := v / Pow2(l), v % Pow2(l);
    QuotientBound(v, l, h);
    Pow2Monotone(h, 64);
    Pow2Monotone(l, 64);
    Pow2Word();
    SliceTop(v, l, h);
    SliceBottom(v, l);
    assert InWidth(hi, h) && InWidth(lo, l);
    ConcatValue(hi, h, lo, l);
    assert ConcatVec(hi, lo, l) == hi * Pow2(l) + lo;
    DivMod(v, Pow2(l));
  }

  /** Quotient and remainder recompose the dividend. */
  lemma DivMod(v: int, p: int)
    requires p > 0
    ensures (v / p) * p + v % p == v
  {
  }

  /** The slice at offset 0 is the remainder. */
  lemma SliceBottom(v: Word, l: nat)
    ensures SliceVec(v, 0, l) == v % Pow2(l)
  {
    assert Pow2(0) == 1;
  }

  /** A slice that reaches the top of the value is the quotient. */
  lemma SliceTop(v: Word, l: nat, h: nat)
    requires l < 64 && v / Pow2(l) < Pow2(h)
    ensures SliceVec(v, l, h) == v / Pow2(l)
  {
    var hi := v / Pow2(l);
    DivModUnique(hi, Pow2(h), 0, hi);
  }

  /** Slicing a concatenation at the seam gives back both parts. */
  lemma SliceConcat(a: Word, sza: nat, b: Word, szb: nat)
    requires szb < 64 && sza + szb <= 64 && InWidth(a, sza) && InWidth(b, szb)
    ensures SliceVec(ConcatVec(a, b, szb), szb, sza) == a
    ensures SliceVec(ConcatVec(a, b, szb), 0, szb) == b
  {
    ConcatValue(a, sza, b, szb);
    var p := Pow2(szb);
    var c := ConcatVec(a, b, szb);
    DivModUnique(c, p, a, b);
    DivModUnique(a, Pow2(sza), 0, a);
  }

  /** The byte `0b10110010` is the concatenation of its two nibbles. */
  lemma ByteFromNibbles()
    ensures ConcatVec(SliceVec(0xB2, 4, 4), SliceVec(0xB2, 0, 4), 4) == 0xB2
  {
    assert Pow2(8) == 256;
    ConcatSlices(0xB2, 4, 4);
  }

  /** The as-written `__not` has no defined result on a 32-bit vector, while
      the intended mask handles every width up to 64. */
  lemma NotAsWrittenUndefined(a: Word)
    ensures NotAsWritten(a, 32).Fail? && !NotAsWritten(a, 32).IsFatal()
    ensures InWidth(a, 32) ==> NotVec(a, 32) == Mask(32) - a
  {
    if InWidth(a, 32) {
      NotValue(a, 32);
    }
  }

  /** The as-written `__slice` has no defined result for a 32-bit slice,
      while the intended one yields the 32 bits at the offset. */
  lemma SliceAsWrittenUndefined(tok: Word, offs: nat)
    requires offs < 64
    ensures SliceAsWritten(tok, offs, 32).Fail?
    ensures SliceVec(tok, offs, 32) == (tok / Pow2(offs)) % Pow2(32)
  {
  }

  // ----- the primitives ------------------------------------------------------

  /** `__and(a, b)`: a new bit-vector of `a`'s width holding `a & b`. */
  method And(ar: Arena, x: Obj, y: Obj) returns (r: Obj)
    requires ar.Valid() && ar.hp >= 1
    requires Live(ar.heap[..], ar.hp, x) && Load(ar.heap[..], x).Bv?
    requires Live(ar.heap[..], ar.hp, y) && Load(ar.heap[..], y).Bv?
    modifies ar`hp, ar.heap
    ensures ar.Valid() && ar.hp == old(ar.hp) - 1 && r == RefTo(ar.hp)
    ensures ar.heap[..] == old(ar.heap[..])[ar.hp :=
              Bv(old(Load(ar.heap[..], x)).sz, BitAnd(old(Load(ar.heap[..], x)).vec, old(Load(ar.heap[..], y)).vec))]
  {
    var sx, sy := Load(ar.heap[..], x), Load(ar.heap[..], y);
    LiveBvInWidth(ar.heap[..], ar.hp, x);
    r := ar.NewBv(sx.sz, BitAnd(sx.vec, sy.vec));
  }

  /** `__concat(a, b)`: a new bit-vector of width `sz(a) + sz(b)` holding
      `(a << sz(b)) | b`, which is `a * 2^sz(b) + b`. */
  method Concat(ar: Arena, x: Obj, y: Obj) returns (r: Obj)
    requires ar.Valid() && ar.hp >= 1
    requires Live(ar.heap[..], ar.hp, x) && Load(ar.heap[..], x).Bv?
    requires Live(ar.heap[..], ar.hp, y) && Load(ar.heap[..], y).Bv?
    requires Load(ar.heap[..], x).sz + Load(ar.heap[..], y).sz <= 64 && Load(ar.heap[..], y).sz < 64
    modifies ar`hp, ar.heap
    ensures ar.Valid() && ar.hp == old(ar.hp) - 1 && r == RefTo(ar.hp)
    ensures var sx, sy := old(Load(ar.heap[..], x)), old(Load(ar.heap[..], y));
            && ar.heap[..] == old(ar.heap[..])[ar.hp := Bv(sx.sz + sy.sz, ConcatVec(sx.vec, sy.vec, sy.sz))]
            && ConcatVec(sx.vec, sy.vec, sy.sz) == sx.vec * Pow2(sy.sz) + sy.vec
  {
    var sx, sy := Load(ar.heap[..], x), Load(ar.heap[..], y);
    LiveBvInWidth(ar.heap[..], ar.hp, x);
    LiveBvInWidth(ar.heap[..], ar.hp, y);
    ConcatValue(sx.vec, sx.sz, sy.vec, sy.sz);
    r := ar.NewBv(sx.sz + sy.sz, ConcatVec(sx.vec, sy.vec, sy.sz));
  }

  /** `__equal(a, b)`: the `__TRUE` singleton exactly when the two values
      are equal; the widths are not compared. */
  function Equal(mem: seq<Slot>, hp: int, x: Obj, y: Obj): (r: Obj)
    requires |mem| == HeapSize && Live(mem, hp, x) && Live(mem, hp, y)
    requires Load(mem, x).Bv? && Load(mem, y).Bv?
    ensures IsTrue(r) <==> Load(mem, x).vec == Load(mem, y).vec
    ensures IsFalse(r) <==> Load(mem, x).vec != Load(mem, y).vec
  {
    if Load(mem, x).vec == Load(mem, y).vec then TRUE else FALSE
  }

  /** `__not(a)`: a new bit-vector of `a`'s width holding `~a` masked to
      that width, which is `mask - a`. */
  method Not(ar: Arena, x: Obj) returns (r: Obj)
    requires ar.Valid() && ar.hp >= 1
    requires Live(ar.heap[..], ar.hp, x) && Load(ar.heap[..], x).Bv?
    modifies ar`hp, ar.heap
    ensures ar.Valid() && ar.hp == old(ar.hp) - 1 && r == RefTo(ar.hp)
    ensures var sx := old(Load(ar.heap[..], x));
            && ar.heap[..] == old(ar.heap[..])[ar.hp := Bv(sx.sz, NotVec(sx.vec, sx.sz))]
            && NotVec(sx.vec, sx.sz) == Mask(sx.sz) - sx.vec
  {
    var sx := Load(ar.heap[..], x);
    LiveBvInWidth(ar.heap[..], ar.hp, x);
    NotValue(sx.vec, sx.sz);
    r := ar.NewBv(sx.sz, NotVec(sx.vec, sx.sz));
  }

  /** `__slice(tok, offs, sz)`: a new bit-vector of width `sz` holding bits
      `offs .. offs+sz-1` of `tok`; `offs` and `sz` are `__INT` values. */
  method Slice(ar: Arena, tok: Obj, offs: Obj, sz: Obj) returns (r: Obj)
    requires ar.Valid() && ar.hp >= 1
    requires Live(ar.heap[..], ar.hp, tok) && Load(ar.heap[..], tok).Bv?
    requires Live(ar.heap[..], ar.hp, offs) && Load(ar.heap[..], offs).Int?
    requires Live(ar.heap[..], ar.hp, sz) && Load(ar.heap[..], sz).Int?
    requires 0 <= Load(ar.heap[..], offs).value < 64 && 0 <= Load(ar.heap[..], sz).value <= 64
    modifies ar`hp, ar.heap
    ensures ar.Valid() && ar.hp == old(ar.hp) - 1 && r == RefTo(ar.hp)
    ensures var t, o, n := old(Load(ar.heap[..], tok)).vec, old(Load(ar.heap[..], offs)).value,
                           old(Load(ar.heap[..], sz)).value;
            && ar.heap[..] == old(ar.heap[..])[ar.hp := Bv(n, SliceVec(t, o, n))]
            && SliceVec(t, o, n) == (t / Pow2(o)) % Pow2(n)
  {
    var t, o, n := Load(ar.heap[..], tok).vec, Load(ar.heap[..], offs).value, Load(ar.heap[..], sz).value;
    r := ar.NewBv(n, SliceVec(t, o, n));
  }

  /** `__raise(o)`: always fatal. */
  function Raise(o: Obj): (r: Result<Obj>)
    ensures r.IsFatal()
  {
    Fail(Fatal("<error>"))
  }

  /** `__halt(env, o)`: the final continuation returns its argument. */
  function Halt(env: Obj, o: Obj): (r: Obj)
    ensures r == o
  {
    o
  }
}
