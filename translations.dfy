/**
 * The value layer of a translation collection: an entry, a context bucket, the two-level
 * store `context -> (key -> entry)` with its enumeration order, the `assign` primitive,
 * the traversal order of `forEach`, and a store rebuilt by assigning a sequence of pairs.
 */
module Translations {
  import opened Wrappers
  import opened Sequences

  /** One translatable text: `reference` and `comment` are optional properties. */
  datatype TranslationData = TranslationData(
    value: string,
    context: string,
    reference: Option<string>,
    comment: Option<string>)

  /** A (key, entry) pair, as the traversal hands it to a callback. */
  type Pair = (string, TranslationData)

  /**
   * One context bucket, a JavaScript object `{ [key]: TranslationData }`: its own keys in
   * enumeration (insertion) order, and the entry under each key.
   */
  datatype Bucket = Bucket(keys: seq<string>, entries: map<string, TranslationData>) {

    /** What every real object satisfies: each own key listed once, and only its own keys. */
    ghost predicate Valid() {
      Distinct(keys) && forall k :: k in keys <==> k in entries
    }

    /** `bucket[key] = data`: a new key goes last, an existing key keeps its place. */
    function Put(key: string, data: TranslationData): (b: Bucket)
      ensures Valid() ==> b.Valid()
    {
      if key in entries then Bucket(keys, entries[key := data])
      else DistinctSnoc(keys, key); Bucket(keys + [key], entries[key := data])
    }
  }

  /**
   * A store of type TranslationType: the contexts in enumeration order and the bucket of
   * each context.
   */
  datatype TranslationType = TranslationType(contexts: seq<string>, buckets: map<string, Bucket>) {

    ghost predicate Valid() {
      && Distinct(contexts)
      && (forall c :: c in contexts <==> c in buckets)
      && (forall c :: c in buckets ==> buckets[c].Valid())
    }

    /** Every entry sits in the bucket named by its own `context` field. */
    ghost predicate InOwnContext() {
      forall c, k :: c in buckets && k in buckets[c].entries ==> buckets[c].entries[k].context == c
    }

    /** No context is present with an empty bucket. */
    ghost predicate NoEmptyBucket() {
      forall c :: c in buckets ==> buckets[c].keys != []
    }
  }

  /** The store `{}`. */
  const Empty: TranslationType := TranslationType([], map[])

  /** The entry under `key` in `context`, None when the context or the key is absent. */
  function Get(t: TranslationType, key: string, context: string): Option<TranslationData> {
    if context in t.buckets && key in t.buckets[context].entries then
      Some(t.buckets[context].entries[key])
    else
      None
  }

  /** The keys of `context` in enumeration order; no keys for an absent context. */
  function Order(t: TranslationType, context: string): (r: seq<string>)
    ensures t.Valid() ==> Distinct(r) && forall k :: k in r <==> Get(t, k, context).Some?
  {
    if context in t.buckets then t.buckets[context].keys else []
  }

  /** The keys stored in `context`; none for an absent context. */
  function KeySet(t: TranslationType, context: string): (s: set<string>)
    ensures forall k :: k in s <==> Get(t, k, context).Some?
  {
    if context in t.buckets then t.buckets[context].entries.Keys else {}
  }

  /** The number of keys of `context`, 0 for an absent context. */
  function Count(t: TranslationType, context: string): (n: nat)
    ensures context !in t.buckets ==> n == 0
    ensures t.Valid() ==> n == |KeySet(t, context)|
  {
    if context in t.buckets then
      var b := t.buckets[context];
      BucketSize(b);
      |b.keys|
    else
      0
  }

  lemma {:induction false} DistinctSize(s: seq<string>)
    requires Distinct(s)
    ensures |set x | x in s| == |s|
  {
    if s != [] {
      var pre := s[..|s| - 1];
      DistinctSize(pre);
      assert s == pre + [s[|s| - 1]];
      assert (set x | x in s) == (set x | x in pre) + {s[|s| - 1]};
    }
  }

  lemma BucketSize(b: Bucket)
    ensures b.Valid() ==> |b.keys| == |b.entries|
  {
    if b.Valid() {
      DistinctSize(b.keys);
      assert (set x | x in b.keys) == b.entries.Keys;
    }
  }

  /**
   * The pure content of `TranslationCollection.assign`: `data` is written under `key` in
   * the bucket of its own context, which is created when absent; nothing else changes.
   */
  function Assign(t: TranslationType, key: string, data: TranslationData): (r: TranslationType)
    ensures Get(r, key, data.context) == Some(data)
    ensures forall k, c :: k != key || c != data.context ==> Get(r, k, c) == Get(t, k, c)
    ensures data.context in r.buckets
    ensures forall c :: c in t.buckets ==> c in r.buckets
    ensures forall c :: c in r.buckets ==> c in t.buckets || c == data.context
    ensures r.contexts == if data.context in t.buckets then t.contexts else t.contexts + [data.context]
    ensures forall c :: c != data.context ==> Order(r, c) == Order(t, c)
  {
    var c := data.context;
    if c in t.buckets then
      TranslationType(t.contexts, t.buckets[c := t.buckets[c].Put(key, data)])
    else
      TranslationType(t.contexts + [c], t.buckets[c := Bucket([key], map[key := data])])
  }

  /** `assign` keeps the representation invariant and appends a new key to its context's order. */
  lemma AssignValid(t: TranslationType, key: string, data: TranslationData)
    requires t.Valid()
    ensures Assign(t, key, data).Valid()
    ensures Order(Assign(t, key, data), data.context) ==
      if key in Order(t, data.context) then Order(t, data.context) else Order(t, data.context) + [key]
  {
    if data.context !in t.buckets {
      DistinctSnoc(t.contexts, data.context);
    }
  }

  /** `assign` files the entry under its own context, and leaves no context empty. */
  lemma AssignPlacement(t: TranslationType, key: string, data: TranslationData)
    ensures t.InOwnContext() ==> Assign(t, key, data).InOwnContext()
    ensures t.NoEmptyBucket() ==> Assign(t, key, data).NoEmptyBucket()
  {
  }

  lemma AssignPreserves(t: TranslationType, key: string, data: TranslationData)
    ensures t.Valid() ==>
      Order(Assign(t, key, data), data.context) ==
        if key in Order(t, data.context) then Order(t, data.context) else Order(t, data.context) + [key]
    ensures t.Valid() ==> Assign(t, key, data).Valid()
    ensures t.InOwnContext() ==> Assign(t, key, data).InOwnContext()
    ensures t.NoEmptyBucket() ==> Assign(t, key, data).NoEmptyBucket()
  {
    if t.Valid() {
      AssignValid(t, key, data);
    }
    AssignPlacement(t, key, data);
  }


  // ---------------------------------------------------------------------------------------
  // Traversal order of forEach

  /** The pairs of bucket `b` for the keys `ks`, in that order. */
  function PairsFor(b: Bucket, ks: seq<string>): seq<Pair>
    requires forall k :: k in ks ==> k in b.entries
  {
    if ks == [] then [] else PairsFor(b, ks[..|ks| - 1]) + [(ks[|ks| - 1], b.entries[ks[|ks| - 1]])]
  }

  /** The pairs of the contexts `cs`, context after context, each in its own key order. */
  function EntriesOf(t: TranslationType, cs: seq<string>): seq<Pair>
    requires t.Valid()
    requires forall c :: c in cs ==> c in t.buckets
  {
    if cs == [] then []
    else
      var c := cs[|cs| - 1];
      EntriesOf(t, cs[..|cs| - 1]) + PairsFor(t.buckets[c], t.buckets[c].keys)
  }

  /** One more key of a bucket in the traversal. */
  lemma PairsForStep(b: Bucket, ks: seq<string>, j: nat)
    requires j < |ks|
    requires forall k :: k in ks ==> k in b.entries
    ensures PairsFor(b, ks[..j + 1]) == PairsFor(b, ks[..j]) + [(ks[j], b.entries[ks[j]])]
  {
    assert ks[..j + 1][..j] == ks[..j];
  }

  /** The pairs depend on the bucket's entries only, not on its key order. */
  lemma {:induction false} PairsForEntries(a: Bucket, b: Bucket, ks: seq<string>)
    requires a.entries == b.entries
    requires forall k :: k in ks ==> k in a.entries
    ensures PairsFor(a, ks) == PairsFor(b, ks)
  {
    if ks != [] {
      PairsForEntries(a, b, ks[..|ks| - 1]);
    }
  }

  /** One more context in the traversal. */
  lemma EntriesOfStep(t: TranslationType, cs: seq<string>, i: nat)
    requires t.Valid() && i < |cs|
    requires forall c :: c in cs ==> c in t.buckets
    ensures EntriesOf(t, cs[..i + 1]) == EntriesOf(t, cs[..i]) + PairsFor(t.buckets[cs[i]], t.buckets[cs[i]].keys)
  {
    assert cs[..i + 1][..i] == cs[..i];
  }

  /** Every (key, entry) pair of the store, in the order forEach visits them. */
  function Entries(t: TranslationType): seq<Pair>
    requires t.Valid()
  {
    EntriesOf(t, t.contexts)
  }

  lemma {:induction false} PairsForMember(b: Bucket, ks: seq<string>, k: string, d: TranslationData)
    requires forall k :: k in ks ==> k in b.entries
    ensures (k, d) in PairsFor(b, ks) <==> k in ks && b.entries[k] == d
  {
    if ks != [] {
      var pre := ks[..|ks| - 1];
      assert ks == pre + [ks[|ks| - 1]];
      PairsForMember(b, pre, k, d);
    }
  }

  lemma {:induction false} EntriesOfMember(t: TranslationType, cs: seq<string>, k: string, d: TranslationData)
    requires t.Valid() && t.InOwnContext()
    requires forall c :: c in cs ==> c in t.buckets
    ensures (k, d) in EntriesOf(t, cs) <==> d.context in cs && Get(t, k, d.context) == Some(d)
  {
    if cs != [] {
      var pre, c := cs[..|cs| - 1], cs[|cs| - 1];
      assert cs == pre + [c];
      EntriesOfMember(t, pre, k, d);
      PairsForMember(t.buckets[c], t.buckets[c].keys, k, d);
    }
  }

  /**
   * In a store whose entries sit in their own contexts, forEach visits exactly the stored
   * pairs.
   */
  lemma EntriesMember(t: TranslationType, k: string, d: TranslationData)
    requires t.Valid() && t.InOwnContext()
    ensures (k, d) in Entries(t) <==> Get(t, k, d.context) == Some(d)
  {
    EntriesOfMember(t, t.contexts, k, d);
  }

  /** forEach visits every stored pair, wherever its entry's own context points. */
  lemma {:induction false} EntriesOfContain(t: TranslationType, cs: seq<string>, k: string, c: string)
    requires t.Valid()
    requires forall c :: c in cs ==> c in t.buckets
    requires c in cs && Get(t, k, c).Some?
    ensures (k, Get(t, k, c).value) in EntriesOf(t, cs)
  {
    var pre, last := cs[..|cs| - 1], cs[|cs| - 1];
    assert cs == pre + [last];
    if last == c {
      PairsForMember(t.buckets[c], t.buckets[c].keys, k, Get(t, k, c).value);
    } else {
      EntriesOfContain(t, pre, k, c);
    }
  }

  lemma EntriesContain(t: TranslationType, k: string, c: string)
    requires t.Valid() && Get(t, k, c).Some?
    ensures (k, Get(t, k, c).value) in Entries(t)
  {
    EntriesOfContain(t, t.contexts, k, c);
  }

  /** No two pairs share a key and an entry context unless they are equal. */
  ghost predicate Functional(ps: seq<Pair>) {
    forall x, y :: x in ps && y in ps && x.0 == y.0 && x.1.context == y.1.context ==> x == y
  }

  lemma EntriesFunctional(t: TranslationType)
    requires t.Valid() && t.InOwnContext()
    ensures Functional(Entries(t))
  {
    forall x, y | x in Entries(t) && y in Entries(t) && x.0 == y.0 && x.1.context == y.1.context
      ensures x == y
    {
      EntriesMember(t, x.0, x.1);
      EntriesMember(t, y.0, y.1);
    }
  }

  // ---------------------------------------------------------------------------------------
  // A store rebuilt by assigning pairs in order

  /** The entry of the last pair in `ps` with key `key` whose entry is of `context`. */
  function LastFor(ps: seq<Pair>, key: string, context: string): (r: Option<TranslationData>)
    ensures r.Some? ==> (key, r.value) in ps && r.value.context == context
    ensures r.None? ==> forall d :: (key, d) in ps ==> d.context != context
  {
    if ps == [] then None
    else
      assert ps == ps[..|ps| - 1] + [ps[|ps| - 1]];
      if ps[|ps| - 1].0 == key && ps[|ps| - 1].1.context == context then Some(ps[|ps| - 1].1)
      else LastFor(ps[..|ps| - 1], key, context)
  }

  /** A pair that no later pair matches on key and context is the one LastFor finds. */
  lemma {:induction false} LastForAt(ps: seq<Pair>, j: nat)
    requires j < |ps|
    requires forall i :: j < i < |ps| ==> ps[i].0 != ps[j].0 || ps[i].1.context != ps[j].1.context
    ensures LastFor(ps, ps[j].0, ps[j].1.context) == Some(ps[j].1)
  {
    if j < |ps| - 1 {
      LastForAt(ps[..|ps| - 1], j);
    }
  }

  lemma LastForFunctional(ps: seq<Pair>, key: string, d: TranslationData)
    requires Functional(ps)
    ensures LastFor(ps, key, d.context) == Some(d) <==> (key, d) in ps
  {
    if (key, d) in ps {
      var r := LastFor(ps, key, d.context);
      assert (key, r.value) in ps;
    }
  }

  /**
   * `assign` applied to each pair of `ps` in order, starting from `t`: every (key, context)
   * holds the last pair assigned to it, or what `t` held when no pair was.
   */
  function AssignAll(t: TranslationType, ps: seq<Pair>): TranslationType {
    if ps == [] then t
    else Assign(AssignAll(t, ps[..|ps| - 1]), ps[|ps| - 1].0, ps[|ps| - 1].1)
  }

  lemma {:induction false} AssignAllFacts(t: TranslationType, ps: seq<Pair>)
    ensures forall k, c :: Get(AssignAll(t, ps), k, c) == if LastFor(ps, k, c).Some? then LastFor(ps, k, c) else Get(t, k, c)
    ensures t.Valid() ==> AssignAll(t, ps).Valid()
    ensures t.InOwnContext() ==> AssignAll(t, ps).InOwnContext()
    ensures t.NoEmptyBucket() ==> AssignAll(t, ps).NoEmptyBucket()
  {
    if ps != [] {
      AssignAllFacts(t, ps[..|ps| - 1]);
      AssignPreserves(AssignAll(t, ps[..|ps| - 1]), ps[|ps| - 1].0, ps[|ps| - 1].1);
    }
  }

  /** Assigning one more pair is one more `assign`. */
  lemma AssignAllSnoc(t: TranslationType, ps: seq<Pair>, x: Pair)
    ensures AssignAll(t, ps + [x]) == Assign(AssignAll(t, ps), x.0, x.1)
  {
    assert (ps + [x])[..|ps|] == ps;
  }

  /** Assigning `a` and then `b` is assigning `a + b`. */
  lemma {:induction false} AssignAllConcat(t: TranslationType, a: seq<Pair>, b: seq<Pair>)
    ensures AssignAll(AssignAll(t, a), b) == AssignAll(t, a + b)
  {
    if b == [] {
      assert a + b == a;
    } else {
      var pre, x := b[..|b| - 1], b[|b| - 1];
      assert b == pre + [x];
      assert a + b == (a + pre) + [x];
      AssignAllConcat(t, a, pre);
      AssignAllSnoc(AssignAll(t, a), pre, x);
      AssignAllSnoc(t, a + pre, x);
    }
  }

  /** The keys of the pairs whose entry is of `context`, in order. */
  function KeysWith(ps: seq<Pair>, context: string): seq<string> {
    if ps == [] then []
    else if ps[|ps| - 1].1.context == context then KeysWith(ps[..|ps| - 1], context) + [ps[|ps| - 1].0]
    else KeysWith(ps[..|ps| - 1], context)
  }

  /** The entry contexts of the pairs, in order. */
  function ContextsOf(ps: seq<Pair>): seq<string> {
    if ps == [] then [] else ContextsOf(ps[..|ps| - 1]) + [ps[|ps| - 1].1.context]
  }

  /** `base` followed by each element of `s` not already seen, at its first occurrence. */
  function AppendNew(base: seq<string>, s: seq<string>): seq<string> {
    if s == [] then base
    else
      var r := AppendNew(base, s[..|s| - 1]);
      if s[|s| - 1] in r then r else r + [s[|s| - 1]]
  }

  /**
   * Enumeration order after assigning: the keys `t` had, then each new key at the first
   * pair that brings it.
   */
  lemma {:induction false} AssignAllOrder(t: TranslationType, ps: seq<Pair>, c: string)
    requires t.Valid()
    ensures Order(AssignAll(t, ps), c) == AppendNew(Order(t, c), KeysWith(ps, c))
  {
    if ps != [] {
      AssignAllFacts(t, ps[..|ps| - 1]);
      AssignPreserves(AssignAll(t, ps[..|ps| - 1]), ps[|ps| - 1].0, ps[|ps| - 1].1);
      AssignAllOrder(t, ps[..|ps| - 1], c);
    }
  }

  /** Context order after assigning: the contexts `t` had, then each new one as it is created. */
  lemma {:induction false} AssignAllContexts(t: TranslationType, ps: seq<Pair>)
    requires t.Valid()
    ensures AssignAll(t, ps).contexts == AppendNew(t.contexts, ContextsOf(ps))
  {
    if ps != [] {
      AssignAllFacts(t, ps[..|ps| - 1]);
      AssignAllContexts(t, ps[..|ps| - 1]);
    }
  }

  lemma {:induction false} AppendNewDistinct(s: seq<string>)
    requires Distinct(s)
    ensures AppendNew([], s) == s
  {
    if s != [] {
      var pre := s[..|s| - 1];
      AppendNewDistinct(pre);
      assert s[|s| - 1] !in pre;
      assert s == pre + [s[|s| - 1]];
    }
  }

  lemma {:induction false} KeysWithConcat(a: seq<Pair>, b: seq<Pair>, c: string)
    ensures KeysWith(a + b, c) == KeysWith(a, c) + KeysWith(b, c)
  {
    if b == [] {
      assert a + b == a;
    } else {
      assert (a + b)[..|a + b| - 1] == a + b[..|b| - 1];
      assert (a + b)[|a + b| - 1] == b[|b| - 1];
      KeysWithConcat(a, b[..|b| - 1], c);
    }
  }

  lemma {:induction false} KeysWithPairsFor(b: Bucket, ks: seq<string>, bc: string, c: string)
    requires forall k :: k in ks ==> k in b.entries
    requires forall k :: k in b.entries ==> b.entries[k].context == bc
    ensures KeysWith(PairsFor(b, ks), c) == if bc == c then ks else []
  {
    if ks != [] {
      var pre := ks[..|ks| - 1];
      KeysWithPairsFor(b, pre, bc, c);
      assert PairsFor(b, ks)[..|PairsFor(b, ks)| - 1] == PairsFor(b, pre);
      assert ks == pre + [ks[|ks| - 1]];
    }
  }

  lemma {:induction false} KeysWithEntriesOf(t: TranslationType, cs: seq<string>, c: string)
    requires t.Valid() && t.InOwnContext()
    requires Distinct(cs) && forall c :: c in cs ==> c in t.buckets
    ensures KeysWith(EntriesOf(t, cs), c) == if c in cs then t.buckets[c].keys else []
  {
    if cs != [] {
      var pre, last := cs[..|cs| - 1], cs[|cs| - 1];
      assert cs == pre + [last];
      var b := t.buckets[last];
      KeysWithEntriesOf(t, pre, c);
      KeysWithConcat(EntriesOf(t, pre), PairsFor(b, b.keys), c);
      KeysWithPairsFor(b, b.keys, last, c);
    }
  }

  /** Assigning a store's own pairs into `{}` gives back its entries. */
  lemma RebuildGet(s: TranslationType, k: string, c: string)
    requires s.Valid() && s.InOwnContext()
    ensures Get(AssignAll(Empty, Entries(s)), k, c) == Get(s, k, c)
  {
    AssignAllFacts(Empty, Entries(s));
    EntriesFunctional(s);
    var l := LastFor(Entries(s), k, c);
    if l.Some? {
      LastForFunctional(Entries(s), k, l.value);
      EntriesMember(s, k, l.value);
    }
    if Get(s, k, c).Some? {
      var d := Get(s, k, c).value;
      EntriesMember(s, k, d);
      LastForFunctional(Entries(s), k, d);
    }
  }

  /** ... and its key order in every context. */
  lemma RebuildOrder(s: TranslationType, c: string)
    requires s.Valid() && s.InOwnContext()
    ensures Order(AssignAll(Empty, Entries(s)), c) == Order(s, c)
  {
    AssignAllOrder(Empty, Entries(s), c);
    KeysWithEntriesOf(s, s.contexts, c);
    AppendNewDistinct(Order(s, c));
  }
}
