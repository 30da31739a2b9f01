/** The field list of a record, as an association list of (field tag, payload)
   pairs in the order the record stores them (`fields[0]`, `fields[1]`, ...).

   This is the functional specification of the record engine in
   detail/codegen/c0/runtime.h: `__recordLookup` returns the first pair whose
   tag matches, `__recordUpdate` overwrites that pair's payload or puts a new
   pair in front (the new slot is allocated directly below the others), and
   `__RECORD_ADD` ... `__RECORD_END` stores the pairs in reverse order of
   addition.  The payload type is generic: the heap model instantiates it with
   object references. */
module Fields {
  import opened Words
  import opened Outcome

  /** Position of the first pair whose tag is `tag`. */
  function IndexOf<T>(fs: seq<(Word, T)>, tag: Word): (r: Option<nat>)
    ensures r.Some? ==> r.value < |fs| && fs[r.value].0 == tag
    ensures r.Some? ==> forall j :: 0 <= j < r.value ==> fs[j].0 != tag
    ensures r.None? <==> forall j :: 0 <= j < |fs| ==> fs[j].0 != tag
  {
    if fs == [] then None
    else if fs[0].0 == tag then Some(0)
    else
      match IndexOf(fs[1..], tag)
      case None => None
      case Some(i) => Some(i + 1)
  }

  /** The set of tags present. */
  function Tags<T>(fs: seq<(Word, T)>): set<Word> {
    set i | 0 <= i < |fs| :: fs[i].0
  }

  /** No tag occurs twice (the record invariant). */
  predicate Distinct<T>(fs: seq<(Word, T)>) {
    forall i, j :: 0 <= i < j < |fs| ==> fs[i].0 != fs[j].0
  }

  /** `__RECORD_SELECT`: the payload of the first pair with tag `tag`. */
  function Lookup<T>(fs: seq<(Word, T)>, tag: Word): (r: Option<T>)
    ensures r.Some? <==> tag in Tags(fs)
    ensures r.Some? ==> (tag, r.value) in fs
  {
    match IndexOf(fs, tag)
    case None => None
    case Some(i) => Some(fs[i].1)
  }

  /** One `__RECORD_UPDATE` on the cloned field list. */
  function Update<T>(fs: seq<(Word, T)>, tag: Word, v: T): (r: seq<(Word, T)>)
    ensures |r| == if tag in Tags(fs) then |fs| else |fs| + 1
  {
    match IndexOf(fs, tag)
    case Some(i) => fs[i := (tag, v)]
    case None => [(tag, v)] + fs
  }

  /** A whole `__RECORD_BEGIN_UPDATE` ... `__RECORD_END_UPDATE` block: the
      updates applied in order. */
  function UpdateAll<T>(fs: seq<(Word, T)>, ups: seq<(Word, T)>): seq<(Word, T)>
    decreases |ups|
  {
    if ups == [] then fs
    else
      var last := ups[|ups| - 1];
      Update(UpdateAll(fs, ups[..|ups| - 1]), last.0, last.1)
  }

  /** The sequence in reverse order. */
  function Reverse<T>(s: seq<T>): (r: seq<T>)
    ensures |r| == |s|
    decreases |s|
  {
    if s == [] then [] else [s[|s| - 1]] + Reverse(s[..|s| - 1])
  }

  /** The tags an update block introduces that the record did not have. */
  function NewTags<T>(fs: seq<(Word, T)>, ups: seq<(Word, T)>): set<Word> {
    Tags(ups) - Tags(fs)
  }

  // ----- lemmas --------------------------------------------------------------

  /** `IndexOf` is determined by its contract. */
  lemma IndexOfIs<T>(fs: seq<(Word, T)>, tag: Word, i: nat)
    requires i < |fs| && fs[i].0 == tag
    requires forall j :: 0 <= j < i ==> fs[j].0 != tag
    ensures IndexOf(fs, tag) == Some(i)
  {
  }

  lemma TagsUpdate<T>(fs: seq<(Word, T)>, tag: Word, v: T)
    ensures Tags(Update(fs, tag, v)) == Tags(fs) + {tag}
  {
    var r := Update(fs, tag, v);
    match IndexOf(fs, tag)
    case Some(i) =>
      forall t | t in Tags(fs) ensures t in Tags(r) {
        var j :| 0 <= j < |fs| && fs[j].0 == t;
        assert r[j].0 == t;
      }
      forall t | t in Tags(r) ensures t in Tags(fs) + {tag} {
        var j :| 0 <= j < |r| && r[j].0 == t;
        if j != i { assert fs[j].0 == t; }
      }
    case None =>
      forall t | t in Tags(fs) ensures t in Tags(r) {
        var j :| 0 <= j < |fs| && fs[j].0 == t;
        assert r[j + 1].0 == t;
      }
      forall t | t in Tags(r) ensures t in Tags(fs) + {tag} {
        var j :| 0 <= j < |r| && r[j].0 == t;
        if j > 0 { assert fs[j - 1].0 == t; }
      }
      assert r[0].0 == tag;
  }

  /** After updating `tag` with `v`, looking `tag` up yields `v`. */
  lemma LookupUpdateSame<T>(fs: seq<(Word, T)>, tag: Word, v: T)
    ensures Lookup(Update(fs, tag, v), tag) == Some(v)
  {
    match IndexOf(fs, tag)
    case Some(i) => IndexOfIs(Update(fs, tag, v), tag, i);
    case None => IndexOfIs(Update(fs, tag, v), tag, 0);
  }

  /** Updating `tag` does not change what any other tag looks up to. */
  lemma LookupUpdateOther<T>(fs: seq<(Word, T)>, tag: Word, v: T, other: Word)
    requires other != tag
    ensures Lookup(Update(fs, tag, v), other) == Lookup(fs, other)
  {
    var r := Update(fs, tag, v);
    match IndexOf(fs, other)
    case Some(k) =>
      if IndexOf(fs, tag).Some? {
        IndexOfIs(r, other, k);
      } else {
        IndexOfIs(r, other, k + 1);
      }
    case None =>
      assert forall j :: 0 <= j < |r| ==> r[j].0 != other by {
        match IndexOf(fs, tag)
        case Some(i) =>
        case None =>
          assert forall j :: 1 <= j < |r| ==> r[j] == fs[j - 1];
      }
  }

  /** Updating the same tag twice: the second write wins, and the shape of
      the field list is that of a single update. */
  lemma UpdateUpdate<T>(fs: seq<(Word, T)>, tag: Word, v: T, w: T)
    ensures Update(Update(fs, tag, v), tag, w) == Update(fs, tag, w)
  {
    var r := Update(fs, tag, v);
    match IndexOf(fs, tag)
    case Some(i) => IndexOfIs(r, tag, i);
    case None => IndexOfIs(r, tag, 0);
  }

  /** Updating `tag` with `v` twice is the same as updating it once. */
  lemma UpdateIdempotent<T>(fs: seq<(Word, T)>, tag: Word, v: T)
    ensures Update(Update(fs, tag, v), tag, v) == Update(fs, tag, v)
  {
    UpdateUpdate(fs, tag, v, v);
  }

  /** Update keeps tags unique. */
  lemma UpdateDistinct<T>(fs: seq<(Word, T)>, tag: Word, v: T)
    requires Distinct(fs)
    ensures Distinct(Update(fs, tag, v))
  {
    var r := Update(fs, tag, v);
    match IndexOf(fs, tag)
    case Some(i) =>
      forall a, b | 0 <= a < b < |r| ensures r[a].0 != r[b].0 {
        if a != i && b != i { assert r[a] == fs[a] && r[b] == fs[b]; }
        else if a == i { assert fs[b].0 == r[b].0; assert fs[i].0 == tag; }
        else { assert fs[a].0 == r[a].0; assert fs[i].0 == tag; }
      }
    case None =>
      forall a, b | 0 <= a < b < |r| ensures r[a].0 != r[b].0 {
        assert r[b] == fs[b - 1];
        if a > 0 { assert r[a] == fs[a - 1]; }
      }
  }

  lemma TagsSnoc<T>(s: seq<(Word, T)>, x: (Word, T))
    ensures Tags(s + [x]) == Tags(s) + {x.0}
  {
    var t := s + [x];
    forall a | a in Tags(t) ensures a in Tags(s) + {x.0} {
      var j :| 0 <= j < |t| && t[j].0 == a;
      if j < |s| { assert s[j].0 == a; }
    }
    forall a | a in Tags(s) ensures a in Tags(t) {
      var j :| 0 <= j < |s| && s[j].0 == a;
      assert t[j].0 == a;
    }
    assert t[|s|].0 == x.0;
  }

  lemma {:induction false} TagsUpdateAll<T>(fs: seq<(Word, T)>, ups: seq<(Word, T)>)
    ensures Tags(UpdateAll(fs, ups)) == Tags(fs) + Tags(ups)
    decreases |ups|
  {
    if ups == [] {
      assert Tags(ups) == {};
    } else {
      var init, last := ups[..|ups| - 1], ups[|ups| - 1];
      TagsUpdateAll(fs, init);
      TagsUpdate(UpdateAll(fs, init), last.0, last.1);
      assert ups == init + [last];
      TagsSnoc(init, last);
    }
  }

  /** After an update block the record has grown by exactly the number of
      tags the block introduced. */
  lemma {:induction false} SizeUpdateAll<T>(fs: seq<(Word, T)>, ups: seq<(Word, T)>)
    ensures |UpdateAll(fs, ups)| == |fs| + |NewTags(fs, ups)|
    decreases |ups|
  {
    if ups == [] {
      assert NewTags(fs, ups) == {};
    } else {
      var init, last := ups[..|ups| - 1], ups[|ups| - 1];
      var u := UpdateAll(fs, init);
      SizeUpdateAll(fs, init);
      TagsUpdateAll(fs, init);
      assert ups == init + [last];
      TagsSnoc(init, last);
      CardStep(Tags(fs), Tags(init), last.0);
    }
  }

  /** The set arithmetic behind `SizeUpdateAll`. */
  lemma CardStep(t0: set<Word>, ti: set<Word>, x: Word)
    ensures |(ti + {x}) - t0| == |ti - t0| + if x in t0 + ti then 0 else 1
  {
    if x !in t0 + ti {
      assert (ti + {x}) - t0 == (ti - t0) + {x};
    } else {
      assert (ti + {x}) - t0 == ti - t0;
    }
  }

  /** A prefix of an update block never yields a bigger record than the
      whole block. */
  lemma {:induction false} UpdateAllGrows<T>(fs: seq<(Word, T)>, ups: seq<(Word, T)>, j: nat)
    requires j <= |ups|
    ensures |UpdateAll(fs, ups[..j])| <= |UpdateAll(fs, ups)|
    decreases |ups|
  {
    if j < |ups| {
      var init := ups[..|ups| - 1];
      assert init[..j] == ups[..j];
      UpdateAllGrows(fs, init, j);
    } else {
      assert ups[..j] == ups;
    }
  }

  /** Looking up past a first pair with another tag. */
  lemma LookupCons<T>(x: (Word, T), r: seq<(Word, T)>, tag: Word)
    ensures Lookup([x] + r, tag) == if x.0 == tag then Some(x.1) else Lookup(r, tag)
  {
    var s := [x] + r;
    assert s[1..] == r;
  }

  /** Looking up in a reversed list: the last pair with the tag wins. */
  lemma LookupReverseSnoc<T>(s: seq<(Word, T)>, tag: Word)
    requires s != []
    ensures Lookup(Reverse(s), tag) ==
            if s[|s| - 1].0 == tag then Some(s[|s| - 1].1) else Lookup(Reverse(s[..|s| - 1]), tag)
  {
    assert Reverse(s) == [s[|s| - 1]] + Reverse(s[..|s| - 1]);
    LookupCons(s[|s| - 1], Reverse(s[..|s| - 1]), tag);
  }

  /** In the reversed list of additions a tag finds the pair that was added
      last with that tag. */
  lemma {:induction false} LookupReverseLast<T>(s: seq<(Word, T)>, tag: Word, i: nat)
    requires i < |s| && s[i].0 == tag
    requires forall j :: i < j < |s| ==> s[j].0 != tag
    ensures Lookup(Reverse(s), tag) == Some(s[i].1)
    decreases |s|
  {
    LookupReverseSnoc(s, tag);
    if i < |s| - 1 {
      var init := s[..|s| - 1];
      assert init[i] == s[i];
      forall j | i < j < |init| ensures init[j].0 != tag {
        assert init[j] == s[j];
      }
      LookupReverseLast(init, tag, i);
    }
  }

  /** Looking up after one more update. */
  lemma LookupUpdate<T>(fs: seq<(Word, T)>, tag: Word, v: T, other: Word)
    ensures Lookup(Update(fs, tag, v), other) == if tag == other then Some(v) else Lookup(fs, other)
  {
    if tag == other {
      LookupUpdateSame(fs, tag, v);
    } else {
      LookupUpdateOther(fs, tag, v, other);
    }
  }

  /** What a lookup sees after an update block: the last value the block
      wrote for that tag, otherwise what the original record held. */
  lemma {:induction false} LookupUpdateAll<T>(fs: seq<(Word, T)>, ups: seq<(Word, T)>, tag: Word)
    ensures Lookup(UpdateAll(fs, ups), tag) ==
            if tag in Tags(ups) then Lookup(Reverse(ups), tag) else Lookup(fs, tag)
    decreases |ups|
  {
    if ups == [] {
      assert Tags(ups) == {};
    } else {
      var init, last := ups[..|ups| - 1], ups[|ups| - 1];
      assert ups == init + [last];
      LookupUpdateAll(fs, init, tag);
      LookupUpdate(UpdateAll(fs, init), last.0, last.1, tag);
      LookupReverseSnoc(ups, tag);
      TagsSnoc(init, last);
    }
  }

  /** The pairs of a record built by `__RECORD_ADD`s, reversed, are found
      exactly as in the list of additions when the tags are distinct. */
  lemma {:induction false} LookupReverse<T>(s: seq<(Word, T)>, tag: Word)
    requires Distinct(s)
    ensures Lookup(Reverse(s), tag) == Lookup(s, tag)
    decreases |s|
  {
    if s != [] {
      var init, last := s[..|s| - 1], s[|s| - 1];
      assert Distinct(init);
      LookupReverse(init, tag);
      LookupReverseSnoc(s, tag);
      if last.0 == tag {
        forall j | 0 <= j < |init| ensures init[j].0 != tag {
          assert s[j] == init[j];
        }
        IndexOfIs(s, tag, |s| - 1);
      } else {
        match IndexOf(init, tag)
        case Some(k) => IndexOfIs(s, tag, k);
        case None =>
          assert forall j :: 0 <= j < |s| ==> s[j].0 != tag by {
            assert forall j :: 0 <= j < |init| ==> s[j] == init[j];
          }
      }
    }
  }

  /** Element `i` of the reversed sequence. */
  lemma {:induction false} ReverseAt<T>(s: seq<T>, i: nat)
    requires i < |s|
    ensures Reverse(s)[i] == s[|s| - 1 - i]
    decreases |s|
  {
    if i > 0 {
      ReverseAt(s[..|s| - 1], i - 1);
    }
  }

  /** Reversing a field list keeps its set of tags. */
  lemma TagsReverse<T>(s: seq<(Word, T)>)
    ensures Tags(Reverse(s)) == Tags(s)
  {
    forall t | t in Tags(s) ensures t in Tags(Reverse(s)) {
      var i :| 0 <= i < |s| && s[i].0 == t;
      ReverseAt(s, |s| - 1 - i);
    }
    forall t | t in Tags(Reverse(s)) ensures t in Tags(s) {
      var i :| 0 <= i < |s| && Reverse(s)[i].0 == t;
      ReverseAt(s, i);
    }
  }
}
