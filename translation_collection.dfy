/**
 * The class `TranslationCollection` over a shared, mutable store object. The store is
 * what the class's `values` field refers to: `add`, `addKeys` and `union` extend the
 * receiver's own store in place and hand back a new collection over that same store,
 * while `filter`, `map`, `remove`, `intersect` and `sort` fill a fresh store.
 */
module Collection {
  import opened Wrappers
  import opened Sequences
  import opened Translations
  import opened DeepExtend
  import opened ArraySort
  import opened Transforms

  /** What the operations throw, in place of JavaScript's TypeError. */
  datatype Fault =
    | ContextNotFound(context: string)  // `Object.keys` of an absent bucket
    | MissingData(index: nat)           // `data[index].context` with no `data[index]`

  /** A JavaScript object of type TranslationType, shared by every collection built on it. */
  class Store {
    var contents: TranslationType

    ghost predicate Valid()
      reads this
    {
      contents.Valid()
    }

    /** The object `{}`. */
    constructor ()
      ensures Valid() && contents == Translations.Empty
    {
      contents := Translations.Empty;
    }

    /** An object literal. */
    constructor Of(contents: TranslationType)
      requires contents.Valid()
      ensures Valid() && this.contents == contents
    {
      this.contents := contents;
    }
  }

  /** `deepExtend(target, obj)`: extends `target` itself and returns it. */
  method DeepExtendInto(target: Store, obj: TranslationType) returns (r: Store)
    requires target.Valid() && obj.Valid()
    modifies target
    ensures r == target && target.Valid()
    ensures target.contents == Extend(old(target.contents), obj)
  {
    target.contents := Extend(target.contents, obj);
    r := target;
  }

  class TranslationCollection {
    var values: Store

    ghost predicate Valid()
      reads this, values
    {
      values.Valid()
    }

    /** `new TranslationCollection(values)`: wraps `values` itself, without a copy. */
    constructor (values: Store)
      requires values.Valid()
      ensures this.values == values && Valid()
    {
      this.values := values;
    }

    /** `new TranslationCollection()`: a collection over a fresh `{}`. */
    constructor Empty()
      ensures fresh(values) && Valid() && values.contents == Translations.Empty
    {
      values := new Store();
    }

    /** `TranslationCollection.assign(values, key, data)`: writes into `values` and returns it. */
    static method Assign(values: Store, key: string, data: TranslationData) returns (r: Store)
      modifies values
      ensures r == values
      ensures values.contents == Translations.Assign(old(values.contents), key, data)
    {
      values.contents := Translations.Assign(values.contents, key, data);
      r := values;
    }

    /** `add(key, data)`: extends the receiver's store and wraps it again. */
    method Add(key: string, data: TranslationData) returns (r: TranslationCollection)
      requires Valid()
      modifies values
      ensures fresh(r) && r.values == values && r.Valid()
      ensures values.contents == Added(old(values.contents), key, data)
    {
      var single := new Store();
      single := Assign(single, key, data);
      assert single.contents.Valid();
      var extended := DeepExtendInto(values, single.contents);
      r := new TranslationCollection(extended);
    }

    /**
     * The `keys.reduce` of `addKeys`: assigns `keys[i]` with `data[i]` into a fresh `{}` in
     * index order; throws when `data` runs out before `keys` does.
     */
    static method AssignKeys(keys: seq<string>, data: seq<TranslationData>) returns (r: Result<Store, Fault>)
      ensures r.Failure? <==> |data| < |keys|
      ensures r.Failure? ==> r.error == MissingData(|data|)
      ensures r.Success? ==> fresh(r.value) && r.value.Valid() && r.value.contents == Batch(keys, data)
    {
      var results := new Store();
      var i := 0;
      while i < |keys|
        invariant 0 <= i <= |keys| && i <= |data|
        invariant fresh(results)
        invariant results.contents == AssignAll(Translations.Empty, Zip(keys[..i], data[..i]))
      {
        if i == |data| {
          return Failure(MissingData(i));
        }
        ZipStep(keys, data, i);
        AssignAllSnoc(Translations.Empty, Zip(keys[..i], data[..i]), (keys[i], data[i]));
        results := Assign(results, keys[i], data[i]);
        i := i + 1;
      }
      assert keys[..i] == keys && data[..i] == data[..|keys|];
      AssignAllFacts(Translations.Empty, Zip(keys, data[..|keys|]));
      r := Success(results);
    }

    /** `addKeys(keys, data)`: extends the receiver's store by the batch and wraps it again. */
    method AddKeys(keys: seq<string>, data: seq<TranslationData>) returns (r: Result<TranslationCollection, Fault>)
      requires Valid()
      modifies values
      ensures r.Failure? <==> |data| < |keys|
      ensures r.Failure? ==> r.error == MissingData(|data|) && values.contents == old(values.contents)
      ensures r.Success? ==> fresh(r.value) && r.value.values == values && r.value.Valid()
      ensures r.Success? ==> values.contents == Extend(old(values.contents), Batch(keys, data))
    {
      var batch := AssignKeys(keys, data);
      if batch.Failure? {
        return Failure(batch.error);
      }
      var extended := DeepExtendInto(values, batch.value.contents);
      var collection := new TranslationCollection(extended);
      r := Success(collection);
    }

    /** `remove(key)`: `filter(k => key !== k)`. */
    method Remove(key: string) returns (r: TranslationCollection)
      requires Valid()
      ensures fresh(r) && fresh(r.values) && r.Valid()
      ensures r.values.contents == Removed(values.contents, key)
    {
      r := Filter(NotKey(key));
    }

    /**
     * `forEach(callback)`: the callback's calls, as the sequence of (key, entry) pairs it is
     * handed, context after context and key after key; returns the receiver.
     */
    method ForEach() returns (visited: seq<Pair>, self: TranslationCollection)
      requires Valid()
      ensures self == this
      ensures visited == Entries(values.contents)
    {
      var t := values.contents;
      var contextKeys := t.contexts;
      visited := [];
      var i := 0;
      while i < |contextKeys|
        invariant 0 <= i <= |contextKeys|
        invariant visited == EntriesOf(t, contextKeys[..i])
      {
        var contextKey := contextKeys[i];
        var bucket := t.buckets[contextKey];
        var keys := bucket.keys;
        ghost var done := visited;
        var j := 0;
        while j < |keys|
          invariant 0 <= j <= |keys|
          invariant visited == done + PairsFor(bucket, keys[..j])
        {
          PairsForStep(bucket, keys, j);
          visited := visited + [(keys[j], bucket.entries[keys[j]])];
          j := j + 1;
        }
        assert keys[..j] == keys;
        EntriesOfStep(t, contextKeys, i);
        i := i + 1;
      }
      assert contextKeys[..i] == contextKeys;
      self := this;
    }

    /** The `forEach` callback of `filter`, over the visited pairs: assigns each one `callback` accepts. */
    static method AssignAccepted(values: Store, visited: seq<Pair>, callback: Predicate)
      modifies values
      ensures values.contents == AssignAll(old(values.contents), FilterPairs(visited, callback))
    {
      ghost var kept: seq<Pair> := [];
      var i := 0;
      while i < |visited|
        invariant 0 <= i <= |visited|
        invariant kept == FilterPairs(visited[..i], callback)
        invariant values.contents == AssignAll(old(values.contents), kept)
      {
        var (key, data) := visited[i];
        FilterPairsStep(visited, i, callback);
        if callback(key, data) {
          AssignAllSnoc(old(values.contents), kept, (key, data));
          var _ := Assign(values, key, data);
          kept := kept + [(key, data)];
        }
        i := i + 1;
      }
      assert visited[..i] == visited;
    }

    /** `filter(callback)`: the visited pairs the callback accepts, assigned into a fresh `{}`. */
    method Filter(callback: Predicate) returns (r: TranslationCollection)
      requires Valid()
      ensures fresh(r) && fresh(r.values) && r.Valid()
      ensures r.values.contents == Filtered(values.contents, callback)
    {
      var results := new Store();
      var visited, _ := ForEach();
      AssignAccepted(results, visited, callback);
      AssignAllFacts(Translations.Empty, FilterPairs(visited, callback));
      r := new TranslationCollection(results);
    }

    /** The `forEach` callback of `map`, over the visited pairs: assigns the image of each one. */
    static method AssignImages(values: Store, visited: seq<Pair>, callback: Mapper)
      modifies values
      ensures values.contents == AssignAll(old(values.contents), MapPairs(visited, callback))
    {
      ghost var images: seq<Pair> := [];
      var i := 0;
      while i < |visited|
        invariant 0 <= i <= |visited|
        invariant images == MapPairs(visited[..i], callback)
        invariant values.contents == AssignAll(old(values.contents), images)
      {
        var (key, data) := visited[i];
        MapPairsStep(visited, i, callback);
        AssignAllSnoc(old(values.contents), images, (key, callback(key, data)));
        var _ := Assign(values, key, callback(key, data));
        images := images + [(key, callback(key, data))];
        i := i + 1;
      }
      assert visited[..i] == visited;
    }

    /** `map(callback)`: the callback's image of every visited pair, assigned into a fresh `{}`. */
    method Map(callback: Mapper) returns (r: TranslationCollection)
      requires Valid()
      ensures fresh(r) && fresh(r.values) && r.Valid()
      ensures r.values.contents == Mapped(values.contents, callback)
    {
      var results := new Store();
      var visited, _ := ForEach();
      AssignImages(results, visited, callback);
      AssignAllFacts(Translations.Empty, MapPairs(visited, callback));
      r := new TranslationCollection(results);
    }

    /** `union(collection)`: extends the receiver's store by the other's and wraps it again. */
    method Union(collection: TranslationCollection) returns (r: TranslationCollection)
      requires Valid() && collection.Valid()
      modifies values
      ensures fresh(r) && r.values == values && r.Valid()
      ensures values.contents == Extend(old(values.contents), old(collection.values.contents))
    {
      var extended := DeepExtendInto(values, collection.values.contents);
      r := new TranslationCollection(extended);
    }

    /** The `forEach` callback of `intersect`, over the visited pairs: assigns each one. */
    static method AssignVisited(values: Store, visited: seq<Pair>)
      modifies values
      ensures values.contents == AssignAll(old(values.contents), visited)
    {
      var i := 0;
      while i < |visited|
        invariant 0 <= i <= |visited|
        invariant values.contents == AssignAll(old(values.contents), visited[..i])
      {
        TakeSnoc(visited, i);
        AssignAllSnoc(old(values.contents), visited[..i], visited[i]);
        var _ := Assign(values, visited[i].0, visited[i].1);
        i := i + 1;
      }
      assert visited[..i] == visited;
    }

    /**
     * `intersect(collection)`: filters by `collection.has(key, data.context)`, then assigns the
     * survivors into a fresh `{}`.
     */
    method Intersect(collection: TranslationCollection) returns (r: TranslationCollection)
      requires Valid() && collection.Valid()
      ensures fresh(r) && fresh(r.values) && r.Valid()
      ensures r.values.contents == Intersected(values.contents, collection.values.contents)
    {
      var results := new Store();
      var filtered := Filter(HasIn(collection.values.contents));
      var visited, _ := filtered.ForEach();
      AssignVisited(results, visited);
      AssignAllFacts(Translations.Empty, visited);
      r := new TranslationCollection(results);
    }

    /** `has(key, context = '')`. */
    function Has(key: string, context: string := ""): (r: bool)
      reads this, values
      ensures r ==> context in values.contents.buckets
      ensures r <==> key in KeySet(values.contents, context)
      ensures r <==> Get(key, context).Some?
    {
      if context in values.contents.buckets then key in values.contents.buckets[context].entries else false
    }

    /** `get(key, context = '')`: the stored entry, or nothing. */
    function Get(key: string, context: string := ""): (r: Option<TranslationData>)
      reads this, values
      ensures context !in values.contents.buckets ==> r.None?
      ensures r.Some? <==> key in KeySet(values.contents, context)
      ensures r.Some? ==> r.value == values.contents.buckets[context].entries[key]
      ensures r.Some? && values.contents.InOwnContext() ==> r.value.context == context
    {
      Translations.Get(values.contents, key, context)
    }

    /** `keys(context)`: the keys of `context` in enumeration order; throws for an absent context. */
    function Keys(context: string): (r: Result<seq<string>, Fault>)
      requires Valid()
      reads this, values
      ensures r.Failure? <==> context !in values.contents.buckets
      ensures r.Failure? ==> r.error == ContextNotFound(context)
      ensures r.Success? ==> Distinct(r.value) && |r.value| == Count(context)
      ensures r.Success? ==> forall k :: k in r.value <==> Has(k, context)
      ensures r.Success? ==> r.value == Order(values.contents, context)
    {
      if context in values.contents.buckets then Success(values.contents.buckets[context].keys)
      else Failure(ContextNotFound(context))
    }

    /** `count(context)`: the number of keys of `context`, 0 when absent. */
    function Count(context: string): (n: nat)
      requires Valid()
      reads this, values
      ensures context !in values.contents.buckets ==> n == 0
      ensures n == |KeySet(values.contents, context)|
    {
      Translations.Count(values.contents, context)
    }

    /** `isEmpty(context)`: no keys in `context`, or no such context. */
    function IsEmpty(context: string): (r: bool)
      requires Valid()
      reads this, values
      ensures context !in values.contents.buckets ==> r
      ensures r <==> Count(context) == 0
    {
      if context in values.contents.buckets then |values.contents.buckets[context].keys| == 0 else true
    }

    /** The inner `forEach` of `sort`: assigns each of `keys`, in order, with its entry in `bucket`. */
    static method AssignFrom(values: Store, bucket: Bucket, keys: seq<string>)
      requires forall k :: k in keys ==> k in bucket.entries
      modifies values
      ensures values.contents == AssignAll(old(values.contents), PairsFor(bucket, keys))
    {
      ghost var pairs: seq<Pair> := [];
      var j := 0;
      while j < |keys|
        invariant 0 <= j <= |keys|
        invariant pairs == PairsFor(bucket, keys[..j])
        invariant values.contents == AssignAll(old(values.contents), pairs)
      {
        var key := keys[j];
        PairsForStep(bucket, keys, j);
        AssignAllSnoc(old(values.contents), pairs, (key, bucket.entries[key]));
        var _ := Assign(values, key, bucket.entries[key]);
        pairs := pairs + [(key, bucket.entries[key])];
        j := j + 1;
      }
      assert keys[..j] == keys;
    }

    /**
     * `sort(compareFn?)`: for each context, its keys sorted by the compare function (the
     * default order when there is none), assigned with their entries into a fresh `{}`.
     */
    method Sort(compareFn: Option<Comparator> := None) returns (r: TranslationCollection)
      requires Valid()
      ensures fresh(r) && fresh(r.values) && r.Valid()
      ensures r.values.contents == Sorted(values.contents, if compareFn.Some? then compareFn.value else DefaultCompare)
    {
      var cmp := if compareFn.Some? then compareFn.value else DefaultCompare;
      var t := values.contents;
      ghost var sorted := Resorted(t, cmp);
      ResortedValid(t, cmp);
      var results := new Store();
      var contextKeys := t.contexts;
      ghost var done: seq<Pair> := [];
      var i := 0;
      while i < |contextKeys|
        invariant 0 <= i <= |contextKeys|
        invariant done == EntriesOf(sorted, contextKeys[..i])
        invariant results.contents == AssignAll(Translations.Empty, done)
      {
        var contextKey := contextKeys[i];
        var sortedKeys := SortBy(Keys(contextKey).value, cmp);
        SortStep(t, cmp, i);
        AssignAllConcat(Translations.Empty, done, PairsFor(t.buckets[contextKey], sortedKeys));
        AssignFrom(results, t.buckets[contextKey], sortedKeys);
        done := done + PairsFor(t.buckets[contextKey], sortedKeys);
        i := i + 1;
      }
      assert contextKeys[..i] == contextKeys;
      AssignAllFacts(Translations.Empty, done);
      r := new TranslationCollection(results);
    }
  }
}
