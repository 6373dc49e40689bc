/**
 * The effect of the `deep-extend` library on a store of type TranslationType, written out
 * for the fixed depth of that shape: `deepExtend(target, obj)` walks the contexts of `obj`,
 * then the keys of each bucket, then the properties of each entry; a property `obj` has
 * overwrites the one of `target`, and an object `target` lacks is copied in.
 */
module DeepExtend {
  import opened Wrappers
  import opened Translations

  /** deepExtend on two entry objects: properties of `b` win, properties `b` lacks stay. */
  function MergeData(a: TranslationData, b: TranslationData): (r: TranslationData)
    ensures r.value == b.value && r.context == b.context
    ensures b.reference.Some? ==> r.reference == b.reference
    ensures b.comment.Some? ==> r.comment == b.comment
    ensures b.reference.None? ==> r.reference == a.reference
    ensures b.comment.None? ==> r.comment == a.comment
  {
    TranslationData(
      b.value,
      b.context,
      if b.reference.Some? then b.reference else a.reference,
      if b.comment.Some? then b.comment else a.comment)
  }

  /** A right-hand entry that carries every optional property replaces the left one whole. */
  lemma MergeDataRightWins(a: TranslationData, b: TranslationData)
    requires b.reference.Some? && b.comment.Some?
    ensures MergeData(a, b) == b
  {
  }

  /** Merging the same right-hand entry twice is merging it once; an entry absorbs itself. */
  lemma MergeDataIdempotent(a: TranslationData, b: TranslationData)
    ensures MergeData(MergeData(a, b), b) == MergeData(a, b)
    ensures MergeData(b, b) == b
  {
  }

  /** The lookup in a merged store, from the lookups on its two sides. */
  function Combine(a: Option<TranslationData>, b: Option<TranslationData>): (r: Option<TranslationData>)
    ensures r.Some? <==> a.Some? || b.Some?
    ensures b.None? ==> r == a
    ensures a.None? ==> r == b
    ensures a.Some? && b.Some? ==> r == Some(MergeData(a.value, b.value))
  {
    match b
    case None => a
    case Some(y) => if a.Some? then Some(MergeData(a.value, y)) else b
  }

  function At(b: Bucket, key: string): Option<TranslationData> {
    if key in b.entries then Some(b.entries[key]) else None
  }

  /** deepExtend of bucket `a` by the keys `ks` of bucket `b`, in that order. */
  function ExtendKeys(a: Bucket, b: Bucket, ks: seq<string>): (r: Bucket)
    requires forall k :: k in ks ==> k in b.entries
    ensures a.Valid() ==> r.Valid() && r.keys == AppendNew(a.keys, ks)
  {
    if ks == [] then a
    else
      var r := ExtendKeys(a, b, ks[..|ks| - 1]);
      var k := ks[|ks| - 1];
      r.Put(k, if k in r.entries then MergeData(r.entries[k], b.entries[k]) else b.entries[k])
  }

  function ExtendBucket(a: Bucket, b: Bucket): (r: Bucket)
    requires b.Valid()
    ensures a.Valid() ==> r.Valid()
  {
    ExtendKeys(a, b, b.keys)
  }

  lemma {:induction false} ExtendKeysAt(a: Bucket, b: Bucket, ks: seq<string>, k: string)
    requires forall k :: k in ks ==> k in b.entries
    ensures At(ExtendKeys(a, b, ks), k) == if k in ks then Combine(At(a, k), At(b, k)) else At(a, k)
  {
    if ks != [] {
      var pre := ks[..|ks| - 1];
      assert ks == pre + [ks[|ks| - 1]];
      ExtendKeysAt(a, b, pre, k);
      if k in pre && At(a, k).Some? {
        MergeDataIdempotent(At(a, k).value, b.entries[k]);
      }
    }
  }

  /** deepExtend of store `r` by the one context `c` of store `u`. */
  function ExtendContext(r: TranslationType, u: TranslationType, c: string): (r': TranslationType)
    requires u.Valid() && c in u.buckets
    ensures forall c' :: c' in r'.buckets <==> c' in r.buckets || c' == c
    ensures r.Valid() ==> r'.Valid() && r'.contexts == if c in r.contexts then r.contexts else r.contexts + [c]
  {
    if c in r.buckets then
      TranslationType(r.contexts, r.buckets[c := ExtendBucket(r.buckets[c], u.buckets[c])])
    else
      TranslationType(r.contexts + [c], r.buckets[c := ExtendBucket(Bucket([], map[]), u.buckets[c])])
  }

  lemma ExtendContextGet(r: TranslationType, u: TranslationType, c: string, k: string, c': string)
    requires u.Valid() && c in u.buckets
    ensures Get(ExtendContext(r, u, c), k, c') == if c' == c then Combine(Get(r, k, c), Get(u, k, c)) else Get(r, k, c')
  {
    if c' == c {
      var base := if c in r.buckets then r.buckets[c] else Bucket([], map[]);
      assert At(base, k) == Get(r, k, c);
      assert At(u.buckets[c], k) == Get(u, k, c);
      ExtendKeysAt(base, u.buckets[c], u.buckets[c].keys, k);
    }
  }

  /** deepExtend of store `t` by the contexts `cs` of store `u`, in that order. */
  function ExtendContexts(t: TranslationType, u: TranslationType, cs: seq<string>): (r: TranslationType)
    requires u.Valid()
    requires forall c :: c in cs ==> c in u.buckets
    ensures forall c :: c in t.buckets || c in cs ==> c in r.buckets
    ensures forall c :: c in r.buckets ==> c in t.buckets || c in cs
    ensures t.Valid() ==> r.Valid() && r.contexts == AppendNew(t.contexts, cs)
  {
    if cs == [] then t
    else ExtendContext(ExtendContexts(t, u, cs[..|cs| - 1]), u, cs[|cs| - 1])
  }

  /** `deepExtend(t, u)`: the value `t` holds afterwards. */
  function Extend(t: TranslationType, u: TranslationType): (r: TranslationType)
    requires u.Valid()
    ensures t.Valid() ==> r.Valid() && r.contexts == AppendNew(t.contexts, u.contexts)
    ensures forall c :: c in r.buckets <==> c in t.buckets || c in u.buckets
  {
    ExtendContexts(t, u, u.contexts)
  }

  lemma {:induction false} ExtendContextsGet(t: TranslationType, u: TranslationType, cs: seq<string>, k: string, c: string)
    requires u.Valid()
    requires forall c :: c in cs ==> c in u.buckets
    ensures Get(ExtendContexts(t, u, cs), k, c) == if c in cs then Combine(Get(t, k, c), Get(u, k, c)) else Get(t, k, c)
  {
    if cs != [] {
      var pre, last := cs[..|cs| - 1], cs[|cs| - 1];
      assert cs == pre + [last];
      ExtendContextsGet(t, u, pre, k, c);
      ExtendContextGet(ExtendContexts(t, u, pre), u, last, k, c);
      if last == c && c in pre && Get(t, k, c).Some? && Get(u, k, c).Some? {
        MergeDataIdempotent(Get(t, k, c).value, Get(u, k, c).value);
      }
    }
  }

  /**
   * Union with the right side winning: a (key, context) only `t` has keeps `t`'s entry, one
   * only `u` has gets `u`'s entry, and on a collision the properties of `u`'s entry win.
   */
  lemma ExtendGet(t: TranslationType, u: TranslationType, k: string, c: string)
    requires u.Valid()
    ensures Get(Extend(t, u), k, c) == Combine(Get(t, k, c), Get(u, k, c))
  {
    ExtendContextsGet(t, u, u.contexts, k, c);
  }

  /** Merging two stores whose entries sit in their own contexts keeps that property. */
  lemma ExtendInOwnContext(t: TranslationType, u: TranslationType)
    requires t.Valid() && u.Valid() && t.InOwnContext() && u.InOwnContext()
    ensures Extend(t, u).InOwnContext()
  {
    var r := Extend(t, u);
    forall c, k | c in r.buckets && k in r.buckets[c].entries
      ensures r.buckets[c].entries[k].context == c
    {
      ExtendGet(t, u, k, c);
    }
  }

  /** `deepExtend(t, {})` leaves `t` as it is. */
  lemma ExtendByEmpty(t: TranslationType)
    ensures Extend(t, Empty) == t
  {
  }

  lemma {:induction false} ExtendKeysAbsorbed(a: Bucket, b: Bucket, ks: seq<string>)
    requires forall k :: k in ks ==> k in b.entries
    requires forall k :: k in ks ==> k in a.entries && MergeData(a.entries[k], b.entries[k]) == a.entries[k]
    ensures ExtendKeys(a, b, ks) == a
  {
    if ks != [] {
      var k := ks[|ks| - 1];
      ExtendKeysAbsorbed(a, b, ks[..|ks| - 1]);
      assert a.entries[k := a.entries[k]] == a.entries;
    }
  }

  lemma {:induction false} ExtendContextsAbsorbed(r: TranslationType, u: TranslationType, cs: seq<string>)
    requires u.Valid()
    requires forall c :: c in cs ==> c in u.buckets
    requires forall c :: c in cs ==> c in r.buckets && ExtendBucket(r.buckets[c], u.buckets[c]) == r.buckets[c]
    ensures ExtendContexts(r, u, cs) == r
  {
    if cs != [] {
      var c := cs[|cs| - 1];
      ExtendContextsAbsorbed(r, u, cs[..|cs| - 1]);
      assert r.buckets[c := r.buckets[c]] == r.buckets;
    }
  }

  /** Extending a second time by the same store changes nothing, order included. */
  lemma ExtendIdempotent(t: TranslationType, u: TranslationType)
    requires u.Valid()
    ensures Extend(Extend(t, u), u) == Extend(t, u)
  {
    var r := Extend(t, u);
    forall c | c in u.contexts
      ensures c in r.buckets && ExtendBucket(r.buckets[c], u.buckets[c]) == r.buckets[c]
    {
      var b := u.buckets[c];
      forall k | k in b.keys
        ensures k in r.buckets[c].entries && MergeData(r.buckets[c].entries[k], b.entries[k]) == r.buckets[c].entries[k]
      {
        ExtendGet(t, u, k, c);
        if Get(t, k, c).Some? {
          MergeDataIdempotent(Get(t, k, c).value, b.entries[k]);
        } else {
          MergeDataIdempotent(b.entries[k], b.entries[k]);
        }
      }
      ExtendKeysAbsorbed(r.buckets[c], b, b.keys);
    }
    ExtendContextsAbsorbed(r, u, u.contexts);
  }
}
