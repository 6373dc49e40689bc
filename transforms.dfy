/**
 * What each operation of a translation collection yields, as a value, and the laws that
 * relate it to the collection it started from. filter, map, remove, intersect and sort
 * rebuild a store by assigning the visited pairs into `{}`; add, addKeys and union
 * deep-extend the receiver's store.
 */
module Transforms {
  import opened Wrappers
  import opened Sequences
  import opened Translations
  import opened DeepExtend
  import opened ArraySort

  /** A filter callback, called with the key and the entry. */
  type Predicate = (string, TranslationData) -> bool

  /** A map callback, called with the key and the entry. */
  type Mapper = (string, TranslationData) -> TranslationData

  function FilterPairs(ps: seq<Pair>, p: Predicate): (r: seq<Pair>)
    ensures forall x :: x in r <==> x in ps && p(x.0, x.1)
  {
    if ps == [] then []
    else
      assert ps == ps[..|ps| - 1] + [ps[|ps| - 1]];
      var r := FilterPairs(ps[..|ps| - 1], p);
      if p(ps[|ps| - 1].0, ps[|ps| - 1].1) then r + [ps[|ps| - 1]] else r
  }

  function MapPairs(ps: seq<Pair>, f: Mapper): (r: seq<Pair>)
    ensures forall x :: x in ps ==> (x.0, f(x.0, x.1)) in r
    ensures forall y :: y in r ==> exists x :: x in ps && y == (x.0, f(x.0, x.1))
  {
    if ps == [] then []
    else
      assert ps == ps[..|ps| - 1] + [ps[|ps| - 1]];
      MapPairs(ps[..|ps| - 1], f) + [(ps[|ps| - 1].0, f(ps[|ps| - 1].0, ps[|ps| - 1].1))]
  }

  /** `keys[i]` paired with `data[i]`, index by index. */
  function Zip(keys: seq<string>, data: seq<TranslationData>): (r: seq<Pair>)
    requires |keys| == |data|
    ensures |r| == |keys|
    ensures forall i :: 0 <= i < |keys| ==> r[i] == (keys[i], data[i])
  {
    if keys == [] then [] else Zip(keys[..|keys| - 1], data[..|data| - 1]) + [(keys[|keys| - 1], data[|data| - 1])]
  }

  /** One more visited pair for `filter`: kept exactly when the predicate accepts it. */
  lemma FilterPairsStep(ps: seq<Pair>, i: nat, p: Predicate)
    requires i < |ps|
    ensures FilterPairs(ps[..i + 1], p) == if p(ps[i].0, ps[i].1) then FilterPairs(ps[..i], p) + [ps[i]] else FilterPairs(ps[..i], p)
  {
    assert ps[..i + 1][..i] == ps[..i];
  }

  /** One more visited pair for `map`: its image is appended. */
  lemma MapPairsStep(ps: seq<Pair>, i: nat, f: Mapper)
    requires i < |ps|
    ensures MapPairs(ps[..i + 1], f) == MapPairs(ps[..i], f) + [(ps[i].0, f(ps[i].0, ps[i].1))]
  {
    assert ps[..i + 1][..i] == ps[..i];
  }

  /** One more index for `addKeys`. */
  lemma ZipStep(keys: seq<string>, data: seq<TranslationData>, i: nat)
    requires i < |keys| && i < |data|
    ensures Zip(keys[..i + 1], data[..i + 1]) == Zip(keys[..i], data[..i]) + [(keys[i], data[i])]
  {
    assert keys[..i + 1][..i] == keys[..i] && data[..i + 1][..i] == data[..i];
  }

  /** `filter(p)`: the visited pairs that satisfy `p`, assigned into `{}`. */
  function Filtered(t: TranslationType, p: Predicate): (r: TranslationType)
    requires t.Valid()
    ensures r.Valid() && r.InOwnContext() && r.NoEmptyBucket()
  {
    AssignAllFacts(Empty, FilterPairs(Entries(t), p));
    AssignAll(Empty, FilterPairs(Entries(t), p))
  }

  /** The callback `k => key !== k` of `remove(key)`. */
  function NotKey(key: string): Predicate {
    (k: string, d: TranslationData) => k != key
  }

  function Removed(t: TranslationType, key: string): TranslationType
    requires t.Valid()
  {
    Filtered(t, NotKey(key))
  }

  /** `map(f)`: the image of every visited pair, assigned into `{}`. */
  function Mapped(t: TranslationType, f: Mapper): (r: TranslationType)
    requires t.Valid()
    ensures r.Valid() && r.InOwnContext() && r.NoEmptyBucket()
  {
    AssignAllFacts(Empty, MapPairs(Entries(t), f));
    AssignAll(Empty, MapPairs(Entries(t), f))
  }

  /** The callback `(key, data) => collection.has(key, data.context)` of `intersect`. */
  function HasIn(u: TranslationType): Predicate {
    (k: string, d: TranslationData) => Get(u, k, d.context).Some?
  }

  /** `intersect(other)`: the pairs of `filter(HasIn(u))`, assigned into `{}` once more. */
  function Intersected(t: TranslationType, u: TranslationType): (r: TranslationType)
    requires t.Valid()
    ensures r.Valid() && r.InOwnContext() && r.NoEmptyBucket()
  {
    AssignAllFacts(Empty, Entries(Filtered(t, HasIn(u))));
    AssignAll(Empty, Entries(Filtered(t, HasIn(u))))
  }

  /** The store with the keys of each bucket in sorted order and the same entries. */
  function Resorted(t: TranslationType, cmp: Comparator): TranslationType {
    TranslationType(t.contexts, map c | c in t.buckets :: Bucket(SortBy(t.buckets[c].keys, cmp), t.buckets[c].entries))
  }

  lemma ResortedFacts(t: TranslationType, cmp: Comparator)
    requires t.Valid()
    ensures Resorted(t, cmp).Valid()
    ensures t.InOwnContext() ==> Resorted(t, cmp).InOwnContext()
    ensures forall k, c :: Get(Resorted(t, cmp), k, c) == Get(t, k, c)
    ensures forall c :: Order(Resorted(t, cmp), c) == SortBy(Order(t, c), cmp)
  {
    ResortedValid(t, cmp);
  }

  lemma ResortedValid(t: TranslationType, cmp: Comparator)
    requires t.Valid()
    ensures Resorted(t, cmp).Valid()
  {
    var r := Resorted(t, cmp);
    forall c | c in r.buckets ensures r.buckets[c].Valid() {
      var ks := t.buckets[c].keys;
      SortByDistinct(ks, cmp);
      forall k ensures k in SortBy(ks, cmp) <==> k in ks {
        assert k in multiset(SortBy(ks, cmp)) <==> k in multiset(ks);
      }
    }
  }

  /**
   * One context of `sort`: its keys sorted are keys of its bucket, and visiting them with
   * the bucket's entries extends the traversal of the re-sorted store by that context.
   */
  lemma SortStep(t: TranslationType, cmp: Comparator, i: nat)
    requires t.Valid() && i < |t.contexts|
    ensures forall k :: k in SortBy(t.buckets[t.contexts[i]].keys, cmp) ==> k in t.buckets[t.contexts[i]].entries
    ensures Resorted(t, cmp).Valid()
    ensures EntriesOf(Resorted(t, cmp), t.contexts[..i + 1]) ==
      EntriesOf(Resorted(t, cmp), t.contexts[..i]) + PairsFor(t.buckets[t.contexts[i]], SortBy(t.buckets[t.contexts[i]].keys, cmp))
  {
    var c := t.contexts[i];
    var ks := SortBy(t.buckets[c].keys, cmp);
    ResortedValid(t, cmp);
    var s := Resorted(t, cmp);
    assert s.buckets[c] == Bucket(ks, t.buckets[c].entries);
    PairsForEntries(t.buckets[c], s.buckets[c], ks);
    EntriesOfStep(s, t.contexts, i);
  }

  /** `sort(cmp)`: every context's pairs in sorted key order, assigned into `{}`. */
  function Sorted(t: TranslationType, cmp: Comparator): (r: TranslationType)
    requires t.Valid()
    ensures r.Valid() && r.InOwnContext() && r.NoEmptyBucket()
  {
    ResortedValid(t, cmp);
    AssignAllFacts(Empty, Entries(Resorted(t, cmp)));
    AssignAll(Empty, Entries(Resorted(t, cmp)))
  }

  /** `add(key, data)`: `deepExtend(values, assign({}, key, data))`. */
  function Added(t: TranslationType, key: string, data: TranslationData): TranslationType {
    Extend(t, Assign(Empty, key, data))
  }

  /** The batch `addKeys` builds: `keys[i]` with `data[i]`, assigned into `{}` in index order. */
  function Batch(keys: seq<string>, data: seq<TranslationData>): (r: TranslationType)
    requires |keys| <= |data|
    ensures r.Valid() && r.InOwnContext() && r.NoEmptyBucket()
  {
    AssignAllFacts(Empty, Zip(keys, data[..|keys|]));
    AssignAll(Empty, Zip(keys, data[..|keys|]))
  }

  // ---------------------------------------------------------------------------------------
  // filter and remove

  /**
   * `filter(p)` keeps exactly the stored pairs that satisfy `p`, with their entries
   * unchanged.
   */
  lemma FilteredGet(t: TranslationType, p: Predicate, k: string, c: string)
    requires t.Valid() && t.InOwnContext()
    ensures Get(Filtered(t, p), k, c) == if Get(t, k, c).Some? && p(k, Get(t, k, c).value) then Get(t, k, c) else None
  {
    var ps := FilterPairs(Entries(t), p);
    AssignAllFacts(Empty, ps);
    EntriesFunctional(t);
    assert Functional(ps);
    var l := LastFor(ps, k, c);
    if l.Some? {
      EntriesMember(t, k, l.value);
    }
    if Get(t, k, c).Some? && p(k, Get(t, k, c).value) {
      var d := Get(t, k, c).value;
      EntriesMember(t, k, d);
      LastForFunctional(ps, k, d);
    }
  }

  /** A context is present after `filter(p)` iff one of its pairs survives. */
  lemma FilteredContexts(t: TranslationType, p: Predicate, c: string)
    requires t.Valid() && t.InOwnContext()
    ensures c in Filtered(t, p).buckets <==> exists k :: Get(t, k, c).Some? && p(k, Get(t, k, c).value)
  {
    var r := Filtered(t, p);
    if c in r.buckets {
      var k := r.buckets[c].keys[0];
      FilteredGet(t, p, k, c);
    }
    forall k | Get(t, k, c).Some? && p(k, Get(t, k, c).value) ensures c in r.buckets {
      FilteredGet(t, p, k, c);
    }
  }

  /** `remove(key)` drops `key` from every context and keeps every other pair. */
  lemma RemovedGet(t: TranslationType, key: string, k: string, c: string)
    requires t.Valid() && t.InOwnContext()
    ensures Get(Removed(t, key), k, c) == if k == key then None else Get(t, k, c)
  {
    FilteredGet(t, NotKey(key), k, c);
  }

  // ---------------------------------------------------------------------------------------
  // map

  /** A callback that never changes an entry's context. */
  ghost predicate ContextPreserving(f: Mapper) {
    forall k, d :: f(k, d).context == d.context
  }

  /** The image of a stored pair lands under the same key in the context the image names. */
  lemma MappedRelocates(t: TranslationType, f: Mapper, k: string, c: string)
    requires t.Valid() && Get(t, k, c).Some?
    ensures Get(Mapped(t, f), k, f(k, Get(t, k, c).value).context).Some?
  {
    var d := Get(t, k, c).value;
    EntriesContain(t, k, c);
    var ps := MapPairs(Entries(t), f);
    AssignAllFacts(Empty, ps);
    assert (k, f(k, d)) in ps;
    var l := LastFor(ps, k, f(k, d).context);
    assert l.Some?;
  }

  /**
   * When no other context's entry under the same key is mapped into the same context, the
   * image of a stored pair is exactly what `map(f)` holds there; a later visited pair mapped
   * into that context would overwrite it otherwise.
   */
  lemma MappedRelocatesExact(t: TranslationType, f: Mapper, k: string, c: string)
    requires t.Valid() && t.InOwnContext() && Get(t, k, c).Some?
    requires forall c' :: c' != c && Get(t, k, c').Some? ==> f(k, Get(t, k, c').value).context != f(k, Get(t, k, c).value).context
    ensures Get(Mapped(t, f), k, f(k, Get(t, k, c).value).context) == Some(f(k, Get(t, k, c).value))
  {
    var d := Get(t, k, c).value;
    MappedRelocates(t, f, k, c);
    var ps := MapPairs(Entries(t), f);
    AssignAllFacts(Empty, ps);
    var l := LastFor(ps, k, f(k, d).context).value;
    assert (k, l) in ps && l.context == f(k, d).context;
    var x :| x in Entries(t) && (k, l) == (x.0, f(x.0, x.1));
    EntriesMember(t, k, x.1);
    assert x.1.context == c;
  }

  /** Every entry after `map(f)` is the image of a stored pair with the same key. */
  lemma MappedFrom(t: TranslationType, f: Mapper, k: string, c: string)
    requires t.Valid() && t.InOwnContext() && Get(Mapped(t, f), k, c).Some?
    ensures exists d: TranslationData :: Get(t, k, d.context) == Some(d) && f(k, d) == Get(Mapped(t, f), k, c).value
  {
    var ps := MapPairs(Entries(t), f);
    AssignAllFacts(Empty, ps);
    var e := LastFor(ps, k, c).value;
    var x :| x in Entries(t) && (k, e) == (x.0, f(x.0, x.1));
    EntriesMember(t, k, x.1);
  }

  /** With a context-preserving callback, `map(f)` replaces each entry by its image in place. */
  lemma MappedPreservingGet(t: TranslationType, f: Mapper, k: string, c: string)
    requires t.Valid() && t.InOwnContext() && ContextPreserving(f)
    ensures Get(Mapped(t, f), k, c) == if Get(t, k, c).Some? then Some(f(k, Get(t, k, c).value)) else None
  {
    var es := Entries(t);
    var ps := MapPairs(es, f);
    AssignAllFacts(Empty, ps);
    EntriesFunctional(t);
    forall x, y | x in ps && y in ps && x.0 == y.0 && x.1.context == y.1.context ensures x == y {
      var x' :| x' in es && x == (x'.0, f(x'.0, x'.1));
      var y' :| y' in es && y == (y'.0, f(y'.0, y'.1));
    }
    assert Functional(ps);
    var l := LastFor(ps, k, c);
    if l.Some? {
      var x :| x in es && (k, l.value) == (x.0, f(x.0, x.1));
      EntriesMember(t, k, x.1);
    }
    if Get(t, k, c).Some? {
      var d := Get(t, k, c).value;
      EntriesMember(t, k, d);
      LastForFunctional(ps, k, f(k, d));
    }
  }

  /** ... so it keeps the count of every context. */
  lemma MappedPreservingCount(t: TranslationType, f: Mapper, c: string)
    requires t.Valid() && t.InOwnContext() && ContextPreserving(f)
    ensures Count(Mapped(t, f), c) == Count(t, c)
  {
    forall k ensures k in KeySet(Mapped(t, f), c) <==> k in KeySet(t, c) {
      MappedPreservingGet(t, f, k, c);
    }
    assert KeySet(Mapped(t, f), c) == KeySet(t, c);
  }

  // ---------------------------------------------------------------------------------------
  // intersect

  /**
   * `intersect(u)` keeps the stored pairs whose (key, context) `u` also has; the entries
   * come from the receiver.
   */
  lemma IntersectedGet(t: TranslationType, u: TranslationType, k: string, c: string)
    requires t.Valid() && t.InOwnContext()
    ensures Get(Intersected(t, u), k, c) == if Get(u, k, c).Some? then Get(t, k, c) else None
  {
    var f := Filtered(t, HasIn(u));
    RebuildGet(f, k, c);
    FilteredGet(t, HasIn(u), k, c);
  }

  // ---------------------------------------------------------------------------------------
  // sort

  /** `sort(cmp)` keeps every pair. */
  lemma SortedGet(t: TranslationType, cmp: Comparator, k: string, c: string)
    requires t.Valid() && t.InOwnContext()
    ensures Get(Sorted(t, cmp), k, c) == Get(t, k, c)
  {
    ResortedFacts(t, cmp);
    RebuildGet(Resorted(t, cmp), k, c);
  }

  /** After `sort(cmp)` the keys of each context are its former keys, sorted by `cmp`. */
  lemma SortedOrder(t: TranslationType, cmp: Comparator, c: string)
    requires t.Valid() && t.InOwnContext()
    ensures Order(Sorted(t, cmp), c) == SortBy(Order(t, c), cmp)
  {
    ResortedFacts(t, cmp);
    RebuildOrder(Resorted(t, cmp), c);
  }

  /** ... which, for a consistent comparator, is in sorted order and the same keys. */
  lemma SortedOrderSorted(t: TranslationType, cmp: Comparator, c: string)
    requires t.Valid() && t.InOwnContext() && Consistent(cmp)
    ensures SortedBy(Order(Sorted(t, cmp), c), cmp)
    ensures multiset(Order(Sorted(t, cmp), c)) == multiset(Order(t, c))
  {
    SortedOrder(t, cmp, c);
    SortBySorted(Order(t, c), cmp);
  }

  // ---------------------------------------------------------------------------------------
  // add, addKeys and union

  /** `add(key, data)` merges `data` in at (key, data.context) and leaves everything else. */
  lemma AddedGet(t: TranslationType, key: string, data: TranslationData, k: string, c: string)
    ensures Get(Added(t, key, data), k, c) ==
      if k == key && c == data.context then Combine(Get(t, k, c), Some(data)) else Get(t, k, c)
  {
    ExtendGet(t, Assign(Empty, key, data), k, c);
  }

  /** Adding the same pair twice is adding it once, enumeration order included. */
  lemma AddedIdempotent(t: TranslationType, key: string, data: TranslationData)
    ensures Added(Added(t, key, data), key, data) == Added(t, key, data)
  {
    ExtendIdempotent(t, Assign(Empty, key, data));
  }

  /** In the batch of `addKeys`, the last pair assigned to a (key, context) is the one kept. */
  lemma BatchGet(keys: seq<string>, data: seq<TranslationData>, j: nat)
    requires |keys| <= |data| && j < |keys|
    requires forall i :: j < i < |keys| ==> keys[i] != keys[j] || data[i].context != data[j].context
    ensures Get(Batch(keys, data), keys[j], data[j].context) == Some(data[j])
  {
    AssignAllFacts(Empty, Zip(keys, data[..|keys|]));
    LastForAt(Zip(keys, data[..|keys|]), j);
  }

  /** A (key, context) that no pair of the batch names is absent from it. */
  lemma BatchAbsent(keys: seq<string>, data: seq<TranslationData>, k: string, c: string)
    requires |keys| <= |data|
    requires forall i :: 0 <= i < |keys| ==> keys[i] != k || data[i].context != c
    ensures Get(Batch(keys, data), k, c) == None
  {
    AssignAllFacts(Empty, Zip(keys, data[..|keys|]));
  }

  /** On keys the two sides do not share, union is the same whichever side is the receiver. */
  lemma UnionDisjointCommutes(t: TranslationType, u: TranslationType, k: string, c: string)
    requires t.Valid() && u.Valid()
    requires Get(t, k, c).None? || Get(u, k, c).None?
    ensures Get(Extend(t, u), k, c) == Get(Extend(u, t), k, c)
  {
    ExtendGet(t, u, k, c);
    ExtendGet(u, t, k, c);
  }
}
