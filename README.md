# TranslationCollection, modelled in Dafny

This project models `TranslationCollection` from ngx-translate-extract: the two-level
store `context -> (key -> TranslationData)` that the extractors fill and the compilers
read. The model covers:

- the `assign` primitive;
- the merges `add`, `addKeys` and `union`, which go through `deep-extend`;
- the traversal `forEach`;
- the rebuilding transforms `filter`, `map`, `remove`, `intersect` and `sort`;
- the queries `has`, `get`, `keys`, `count` and `isEmpty`.

The proofs are about what those operations do to the store.

## Layout

| file | module | contents |
|---|---|---|
| `wrappers.dfy` | `Wrappers` | `Option` and `Result`. |
| `sequences.dfy` | `Sequences` | `Distinct` and two small sequence facts. |
| `translations.dfy` | `Translations` | Entries, the ordered store values, `assign` as a function, the `forEach` traversal order, and `AssignAll` with its characterisation. |
| `deep_extend.dfy` | `DeepExtend` | What `deepExtend(target, obj)` leaves in the target, for this store shape. |
| `array_sort.dfy` | `ArraySort` | `keys.sort(compareFn)` as a stable sort, and the default order. |
| `transforms.dfy` | `Transforms` | One specification function per operation (`Filtered`, `Removed`, `Mapped`, `Intersected`, `Sorted`, `Added`, `Batch`) and the lemmas about them. |
| `translation_collection.dfy` | `Collection` | The class, over a mutable `Store` object. |

### Store values

A JavaScript object is a value of type `TranslationType` in the model:

- its contexts in enumeration order;
- one `Bucket` per context, holding the keys in enumeration order and the entry under each key.

`Valid()` says each key is listed once and only own keys are listed; every real object satisfies it. Assigning to a new property appends it. Overwriting a property keeps its position.

Two further predicates describe what rebuilding produces:

- `InOwnContext()`: every entry sits under its own `context`.
- `NoEmptyBucket()`: no context is present with an empty bucket.

### Mutable state

The class follows the code:

- `Collection.Store` is the mutable object.
- `TranslationCollection.values` refers to a store without copying it.
- `TranslationCollection.Assign` writes into the store it is given.
- `add`, `addKeys` and `union` pass `this.values` to `deepExtend` as the target. So they extend the receiver's own store and return a new collection over that same store.
- `filter`, `map`, `intersect` and `sort` fill a fresh `{}`. Each does so in a loop that follows the source's nested `forEach` calls, and each method is proved equal to its specification function in `Transforms`.

### Behaviours of the code worth knowing

- **add, addKeys, union.** Every operation returns a new `TranslationCollection`, but these three mutate the receiver's mapping, and the collection they return shares it (`r.values == values` in their contracts).
- **Merging on a collision.** `deep-extend` does not replace the old entry by the new one. It merges the two entry objects property by property: properties present on the right win, and the others stay (`DeepExtend.MergeData`).
- **addKeys with too little data.** addKeys faults only when `data` is shorter than `keys`: `data[i].context` is then read on `undefined`. That becomes `Failure(MissingData(|data|))` with the store untouched. Extra data is ignored.
- **keys on an absent context.** `Object.keys(undefined)` throws a TypeError, which becomes `Failure(ContextNotFound(context))`. `count` and `isEmpty` return 0 and true there instead.

## Model

| member | source | states |
|---|---|---|
| Translations.Bucket.Put | src/utils/translation.collection.ts:20 | Writing a property keeps the bucket well formed: each key is listed once and only its own keys are listed. |
| Translations.Get | src/utils/translation.collection.ts:92-98 | The lookup of `values[context][key]`: the entry when the context is present and has the key as its own property, nothing otherwise. Its properties for each operation are stated by the lemmas below. |
| Translations.Order | src/utils/translation.collection.ts:101 | In a well-formed store, a context's key order lists distinct keys, exactly those `get` finds; an absent context has none. |
| Translations.KeySet | src/utils/translation.collection.ts:93 | A key is in the key set of a context exactly when `get` finds an entry there. |
| Translations.Count | src/utils/translation.collection.ts:104-106 | An absent context has 0 keys; otherwise the count is the number of distinct stored keys. |
| Translations.Assign | src/utils/translation.collection.ts:18-26 | The entry is stored under (key, data.context). Every other (key, context) is unchanged. The context's bucket is created when absent and appended to the context order; no other context appears or disappears, and the key order of other contexts is unchanged. |
| Translations.AssignValid | src/utils/translation.collection.ts:18-26 | `assign` keeps the store well formed. A new key goes last in its context's order, and an existing key keeps its place. |
| Translations.AssignPlacement | src/utils/translation.collection.ts:19-22 | `assign` files the entry under its own context and never leaves an empty bucket. |
| Translations.AssignPreserves | src/utils/translation.collection.ts:18-26 | The two facts above together, as implications from the old store. |
| Translations.PairsFor | src/utils/translation.collection.ts:51-52 | The inner loop of forEach: each listed key with its stored entry, in the listed order. Its membership is stated by `PairsForMember`. |
| Translations.EntriesOf | src/utils/translation.collection.ts:50-53 | The outer loop of forEach over some contexts: the pairs of each context, context after context. Its membership is stated by `EntriesOfMember` and `EntriesOfContain`. |
| Translations.Entries | src/utils/translation.collection.ts:49-55 | Every pair forEach visits, in visiting order. `EntriesMember`, `EntriesContain` and `EntriesFunctional` state what it holds. |
| Translations.PairsForStep | src/utils/translation.collection.ts:51-53 | The inner traversal visits one more key with its stored entry. |
| Translations.PairsForEntries | src/utils/translation.collection.ts:116-117 | The pairs visited for a list of keys depend only on the bucket's entries, not on its key order. |
| Translations.EntriesOfStep | src/utils/translation.collection.ts:50-53 | The outer traversal visits one more context's pairs, in that context's key order. |
| Translations.PairsForMember | src/utils/translation.collection.ts:51-52 | The pairs visited for some keys of a bucket are exactly those keys with their entries. |
| Translations.EntriesOfMember | src/utils/translation.collection.ts:50-53 | In a store whose entries sit in their own contexts, the pairs visited for some contexts are exactly the stored pairs of those contexts. |
| Translations.EntriesMember | src/utils/translation.collection.ts:49-55 | In such a store, forEach visits (k, d) exactly when d is stored under k in d's context. |
| Translations.EntriesOfContain | src/utils/translation.collection.ts:50-53 | Every stored pair of a visited context is visited, whatever the entry's own context field says. |
| Translations.EntriesContain | src/utils/translation.collection.ts:49-55 | forEach visits every stored pair. |
| Translations.EntriesFunctional | src/utils/translation.collection.ts:49-55 | forEach never visits two different entries for the same key and entry context. |
| Translations.LastFor | src/utils/translation.collection.ts:18-26 | The last pair for a (key, context) is one of the pairs and has that context; when there is none, no pair has that key and context. |
| Translations.LastForAt | src/utils/translation.collection.ts:39-41 | A pair that no later pair matches on key and context is the last one for them. |
| Translations.LastForFunctional | src/utils/translation.collection.ts:57-63 | In a pair sequence without conflicting pairs, the last pair for (key, d.context) is d exactly when (key, d) occurs. |
| Translations.AssignAll | src/utils/translation.collection.ts:39-41 | `assign` applied to each pair in order, as the reduce of addKeys and the forEach callbacks of filter, map, intersect and sort do (lines 59-63, 70-72, 85-87, 115-119). Its result is characterised by `AssignAllFacts`, `AssignAllOrder` and `AssignAllContexts`. |
| Translations.AssignAllFacts | src/utils/translation.collection.ts:18-26 | After assigning a sequence of pairs in order, each (key, context) holds the last pair assigned to it, or what the store held before when no pair names it. Being well formed, being filed by context and having no empty bucket are all preserved. |
| Translations.AssignAllSnoc | src/utils/translation.collection.ts:39-41 | Assigning one more pair is one more `assign` on the accumulated store. |
| Translations.AssignAllConcat | src/utils/translation.collection.ts:115-119 | Assigning one sequence of pairs and then another is assigning their concatenation. |
| Translations.AssignAllOrder | src/utils/translation.collection.ts:18-26 | After assigning, a context's key order is its old keys followed by each new key at the first pair that brings it. |
| Translations.AssignAllContexts | src/utils/translation.collection.ts:18-26 | After assigning, the context order is the old contexts followed by each new context at the first pair that creates it. |
| Translations.AppendNewDistinct | src/utils/translation.collection.ts:115-119 | Appending distinct names to an empty order gives them back unchanged. |
| Translations.KeysWithConcat | src/utils/translation.collection.ts:115-119 | The keys for a context in two concatenated pair sequences are the keys in the first followed by the keys in the second. |
| Translations.KeysWithPairsFor | src/utils/translation.collection.ts:116-117 | The pairs of one bucket contribute their keys, in order, to that bucket's context and to no other. |
| Translations.KeysWithEntriesOf | src/utils/translation.collection.ts:50-53 | Traversing distinct contexts yields, for each of them, exactly its own key order. |
| Translations.RebuildGet | src/utils/translation.collection.ts:57-65 | Assigning a store's own traversal into `{}` gives back every entry. |
| Translations.RebuildOrder | src/utils/translation.collection.ts:57-65 | ... and every context's key order. |
| Translations.DistinctSize | src/utils/translation.collection.ts:105 | A list of distinct keys is as long as the set of its keys. |
| Translations.BucketSize | src/utils/translation.collection.ts:105 | `Object.keys(bucket).length` is the number of stored keys. |
| DeepExtend.MergeData | src/utils/translation.collection.ts:35 | On a collision the merged entry takes `value` and `context` from the right and each optional property the right entry has. An optional property the right entry lacks keeps the left entry's value. |
| DeepExtend.Combine | src/utils/translation.collection.ts:77-79 | The lookup in a merged store from the lookups on both sides: present when either side is, the left side's entry when the right lacks one, the right side's when the left lacks one, and their `MergeData` when both have one. |
| DeepExtend.MergeDataRightWins | src/utils/translation.collection.ts:35 | A right-hand entry with every optional property replaces the left one whole. |
| DeepExtend.MergeDataIdempotent | src/utils/translation.collection.ts:35 | Merging the same right-hand entry twice is merging it once, and an entry merged with itself is unchanged. |
| DeepExtend.ExtendKeys | src/utils/translation.collection.ts:35 | Extending a bucket by some keys keeps it well formed and appends the new keys in order. |
| DeepExtend.ExtendBucket | src/utils/translation.collection.ts:78 | Extending a bucket by another keeps it well formed. |
| DeepExtend.ExtendKeysAt | src/utils/translation.collection.ts:35 | After extending a bucket by some keys, each of those keys holds the combination of both sides, and every other key is unchanged. |
| DeepExtend.ExtendContext | src/utils/translation.collection.ts:78 | Extending by one context adds that context when absent, and keeps the store well formed. |
| DeepExtend.ExtendContextGet | src/utils/translation.collection.ts:78 | Extending by one context combines the entries of that context only. |
| DeepExtend.ExtendContexts | src/utils/translation.collection.ts:78 | Extending by some contexts yields exactly the union of the contexts, appending the new ones in order. |
| DeepExtend.ExtendContextsGet | src/utils/translation.collection.ts:78 | After extending by some contexts, each of those contexts holds the combined entries and every other context is unchanged. |
| DeepExtend.Extend | src/utils/translation.collection.ts:77-79 | `deepExtend(t, u)` keeps the store well formed. The result's contexts are those of both sides: t's in order, then u's new ones in order. |
| DeepExtend.ExtendGet | src/utils/translation.collection.ts:77-79 | Union with the right side winning. A (key, context) only t has keeps t's entry, one only u has gets u's entry, and on a collision u's properties win. |
| DeepExtend.ExtendInOwnContext | src/utils/translation.collection.ts:77-79 | The union of two stores filed by context is filed by context. |
| DeepExtend.ExtendByEmpty | src/utils/translation.collection.ts:77-79 | Union with the empty collection is the identity. |
| DeepExtend.ExtendKeysAbsorbed | src/utils/translation.collection.ts:35 | Extending a bucket by entries it already absorbs leaves it unchanged. |
| DeepExtend.ExtendContextsAbsorbed | src/utils/translation.collection.ts:78 | Extending a store by contexts it already absorbs leaves it unchanged. |
| DeepExtend.ExtendIdempotent | src/utils/translation.collection.ts:77-79 | Extending a second time by the same store changes nothing, enumeration order included. |
| ArraySort.Insert | src/utils/translation.collection.ts:116 | One insertion step of the sort adds exactly the inserted key. |
| ArraySort.SortBy | src/utils/translation.collection.ts:116 | Sorting permutes the keys. |
| ArraySort.SortedSnoc | src/utils/translation.collection.ts:116 | A sorted list stays sorted when a key no smaller than all of it is appended. |
| ArraySort.SortedBelow | src/utils/translation.collection.ts:116 | For a consistent comparator, everything in a sorted list is at most anything its last element precedes. |
| ArraySort.InsertBelow | src/utils/translation.collection.ts:116 | Insertion keeps an upper bound that holds for the list and the inserted key. |
| ArraySort.InsertSorted | src/utils/translation.collection.ts:116 | For a consistent comparator, insertion keeps a list sorted. |
| ArraySort.SortBySorted | src/utils/translation.collection.ts:116 | For a consistent comparator, the sorted keys are in order. |
| ArraySort.InsertDistinct | src/utils/translation.collection.ts:116 | Inserting a new key into distinct keys gives distinct keys. |
| ArraySort.SortByDistinct | src/utils/translation.collection.ts:116 | Sorting distinct keys gives distinct keys. |
| ArraySort.DefaultCompare | src/utils/translation.collection.ts:116 | The order of `sort()` without a compare function: compares character by character, with a proper prefix first. It ties exactly on equal strings. |
| ArraySort.DefaultCompareFlip | src/utils/translation.collection.ts:116 | The default order is antisymmetric. |
| ArraySort.DefaultCompareTransitive | src/utils/translation.collection.ts:116 | The default order is transitive. |
| ArraySort.DefaultCompareConsistent | src/utils/translation.collection.ts:116 | The default order is consistent as `Array.prototype.sort` requires: its sign flips with its arguments, and it is a total preorder. So `sort()` without a compare function sorts. |
| Transforms.FilterPairs | src/utils/translation.collection.ts:59-62 | Exactly the visited pairs that the callback accepts are kept. |
| Transforms.MapPairs | src/utils/translation.collection.ts:70-71 | Every visited pair contributes its image under the same key, and the result holds only such images. |
| Transforms.Zip | src/utils/translation.collection.ts:39-41 | Index i pairs `keys[i]` with `data[i]`. |
| Transforms.FilterPairsStep | src/utils/translation.collection.ts:60-62 | One more visited pair is kept exactly when the callback accepts it. |
| Transforms.MapPairsStep | src/utils/translation.collection.ts:71 | One more visited pair appends its image. |
| Transforms.ZipStep | src/utils/translation.collection.ts:39-41 | One more index of the reduce appends `(keys[i], data[i])`. |
| Transforms.NotKey | src/utils/translation.collection.ts:46 | The callback `k => key !== k`: accepts exactly the other keys. `RemovedGet` states its effect. |
| Transforms.Removed | src/utils/translation.collection.ts:45-47 | `remove(key)` is literally `filter(NotKey(key))`. `RemovedGet` states its contents. |
| Transforms.HasIn | src/utils/translation.collection.ts:84 | The callback `(key, data) => collection.has(key, data.context)`. `IntersectedGet` states its effect. |
| Transforms.Added | src/utils/translation.collection.ts:34-36 | `add(key, data)` is `deepExtend(values, assign({}, key, data))`. `AddedGet` and `AddedIdempotent` state its contents. |
| Transforms.Resorted | src/utils/translation.collection.ts:115-117 | The store whose buckets list their keys as `this.keys(contextKey).sort(compareFn)` does, with the same entries. `ResortedFacts` states its properties. |
| Transforms.Filtered | src/utils/translation.collection.ts:57-65 | The result of `filter` is well formed, filed by context and has no empty bucket. |
| Transforms.Mapped | src/utils/translation.collection.ts:67-75 | The result of `map` is well formed, filed by the images' contexts and has no empty bucket. |
| Transforms.Intersected | src/utils/translation.collection.ts:81-90 | The result of `intersect` is well formed, filed by context and has no empty bucket. |
| Transforms.ResortedFacts | src/utils/translation.collection.ts:115-117 | Reordering each bucket's keys by the comparator keeps every entry and the store well formed. Each key order becomes the sorted old one. |
| Transforms.ResortedValid | src/utils/translation.collection.ts:115-117 | Reordering each bucket's keys by the comparator keeps the store well formed. |
| Transforms.SortStep | src/utils/translation.collection.ts:115-119 | The pairs `sort` visits for one more context are that context's sorted keys with their entries. |
| Transforms.Sorted | src/utils/translation.collection.ts:112-122 | The result of `sort` is well formed, filed by context and has no empty bucket. |
| Transforms.Batch | src/utils/translation.collection.ts:39-41 | The batch of `addKeys` is well formed, filed by context and has no empty bucket. |
| Transforms.FilteredGet | src/utils/translation.collection.ts:57-65 | `filter(p)` holds exactly the stored pairs that p accepts, with unchanged entries. |
| Transforms.FilteredContexts | src/utils/translation.collection.ts:57-65 | A context is present after `filter(p)` iff one of its pairs survives. |
| Transforms.RemovedGet | src/utils/translation.collection.ts:45-47 | `remove(key)` drops `key` from every context and keeps every other pair. It is defined as `filter(k => key !== k)`. |
| Transforms.MappedRelocates | src/utils/translation.collection.ts:67-75 | After `map`, the context that a stored pair's image names has an entry under the same key. |
| Transforms.MappedRelocatesExact | src/utils/translation.collection.ts:67-75 | That entry is the image itself when no other context's entry under that key is mapped into the same context. |
| Transforms.MappedFrom | src/utils/translation.collection.ts:67-75 | Every entry after `map(f)` is the image of a stored pair with the same key. |
| Transforms.MappedPreservingGet | src/utils/translation.collection.ts:67-75 | With a callback that keeps contexts, `map(f)` replaces each entry by its image in place and adds nothing. |
| Transforms.MappedPreservingCount | src/utils/translation.collection.ts:67-75 | With such a callback, `map` keeps the count of every context. |
| Transforms.IntersectedGet | src/utils/translation.collection.ts:81-90 | `intersect(u)` keeps exactly the stored pairs whose (key, context) u also has. The entries come from the receiver. |
| Transforms.SortedGet | src/utils/translation.collection.ts:112-122 | `sort` keeps every pair and adds none. |
| Transforms.SortedOrder | src/utils/translation.collection.ts:112-122 | After `sort(cmp)`, each context's keys are its former keys sorted by cmp. |
| Transforms.SortedOrderSorted | src/utils/translation.collection.ts:112-122 | For a consistent comparator, these keys are in order and are a permutation of the former ones. |
| Transforms.AddedGet | src/utils/translation.collection.ts:34-36 | `add(key, data)` merges data in at (key, data.context) and leaves every other pair. |
| Transforms.AddedIdempotent | src/utils/translation.collection.ts:34-36 | Adding the same pair twice is adding it once, enumeration order included. |
| Transforms.BatchGet | src/utils/translation.collection.ts:38-43 | In the batch of `addKeys`, the last pair assigned to a (key, context) is the one kept. |
| Transforms.BatchAbsent | src/utils/translation.collection.ts:38-43 | A (key, context) that no pair of the batch names is absent from it. |
| Transforms.UnionDisjointCommutes | src/utils/translation.collection.ts:77-79 | On (key, context) pairs the two sides do not share, union gives the same result whichever side is the receiver. |
| Collection.Store.constructor | src/utils/translation.collection.ts:28-32 | The default `{}`: an empty, well-formed store. |
| Collection.Store.Of | src/utils/translation.collection.ts:30-32 | An object literal handed to the constructor. |
| Collection.DeepExtendInto | src/utils/translation.collection.ts:35 | `deepExtend` extends its target in place, returns that same object, and keeps it well formed. |
| Collection.TranslationCollection.constructor | src/utils/translation.collection.ts:30-32 | The collection wraps the given store itself, not a copy. |
| Collection.TranslationCollection.Empty | src/utils/translation.collection.ts:28-32 | With no argument, the collection wraps a fresh `{}`. |
| Collection.TranslationCollection.Assign | src/utils/translation.collection.ts:18-26 | Writes into the store it is given and returns that store; the store's new value is the pure `assign`. |
| Collection.TranslationCollection.Add | src/utils/translation.collection.ts:34-36 | Extends the receiver's store by the one-entry store. Returns a new collection over that same store. |
| Collection.TranslationCollection.AssignKeys | src/utils/translation.collection.ts:39-41 | The reduce faults exactly when `data` is shorter than `keys`, at index `length(data)`. Otherwise it yields a fresh store holding the batch. |
| Collection.TranslationCollection.AddKeys | src/utils/translation.collection.ts:38-43 | Faults exactly when `data` is shorter than `keys`, leaving the store unchanged. Otherwise it extends the receiver's store by the batch and returns a new collection over it. |
| Collection.TranslationCollection.Remove | src/utils/translation.collection.ts:45-47 | A new collection over a fresh store holding `Removed`. |
| Collection.TranslationCollection.ForEach | src/utils/translation.collection.ts:49-55 | The callback is handed every pair, context by context and key by key in enumeration order. Returns the receiver. |
| Collection.TranslationCollection.AssignAccepted | src/utils/translation.collection.ts:59-63 | The filter callback assigns exactly the accepted visited pairs, in order. |
| Collection.TranslationCollection.Filter | src/utils/translation.collection.ts:57-65 | A new collection over a fresh store holding `Filtered`. |
| Collection.TranslationCollection.AssignImages | src/utils/translation.collection.ts:70-72 | The map callback assigns the image of every visited pair, in order. |
| Collection.TranslationCollection.Map | src/utils/translation.collection.ts:67-75 | A new collection over a fresh store holding `Mapped`. |
| Collection.TranslationCollection.Union | src/utils/translation.collection.ts:77-79 | Extends the receiver's store by the other collection's store. Returns a new collection over the receiver's store. |
| Collection.TranslationCollection.AssignVisited | src/utils/translation.collection.ts:85-87 | The intersect callback assigns every visited pair, in order. |
| Collection.TranslationCollection.Intersect | src/utils/translation.collection.ts:81-90 | A new collection over a fresh store holding `Intersected`. |
| Collection.TranslationCollection.Has | src/utils/translation.collection.ts:92-94 | False when the context is absent. True exactly when the key is stored in the context, and exactly when `get` finds an entry. |
| Collection.TranslationCollection.Get | src/utils/translation.collection.ts:96-98 | Nothing when the context is absent. An entry exactly when the key is stored in the context, and then the stored entry, whose `context` is the asked one in a store filed by context. |
| Collection.TranslationCollection.Keys | src/utils/translation.collection.ts:100-102 | Faults exactly when the context is absent. Otherwise it returns the context's key order, which lists distinct keys, `count` of them, exactly the keys `has` accepts. |
| Collection.TranslationCollection.Count | src/utils/translation.collection.ts:104-106 | 0 for an absent context. Otherwise the number of stored keys. |
| Collection.TranslationCollection.IsEmpty | src/utils/translation.collection.ts:108-110 | True for an absent context. In general, true exactly when `count` is 0. |
| Collection.TranslationCollection.AssignFrom | src/utils/translation.collection.ts:116-118 | The inner loop of `sort` assigns the given keys, in order, with their entries. |
| Collection.TranslationCollection.Sort | src/utils/translation.collection.ts:112-122 | A new collection over a fresh store holding `Sorted`, by the given compare function or else the default order. |

## Left out

- The `deep-extend` library itself is not part of this model. `DeepExtend` fixes its effect for this two-level shape with string properties and absent optional properties. Arrays, dates, buffers, the cloning of objects copied in from the right side, and `__proto__` guarding play no part here.
- Entries are values. The model does not capture that `deep-extend` may mutate an entry object still reachable from another collection, or that a bucket object copied by reference may be shared.
- A present property whose value is `undefined` is modelled as an absent one (`None`).
- `get` returns `null` for an absent context and `undefined` for an absent key. Both are `None`.
- JavaScript's `Object.keys` lists integer-like keys first, in numeric order. The model uses insertion order for every key.
- Inherited property names are treated as absent, for example a context named `constructor`, found through `Object.prototype`.
- Two own-key names behave specially in JavaScript, and the model treats them as ordinary keys:
  - `"__proto__"`: writing `values[c]["__proto__"] = data` sets the prototype instead of creating a key, and `deep-extend` skips such a key.
  - `"hasOwnProperty"`: a stored key of that name shadows the method, so `has` calls an entry object and throws.
- Callbacks are pure, total functions of the key and the entry. `callback.call(this, …)` binding, callbacks with side effects and callbacks that throw are not modelled. `forEach` returns the sequence of calls it makes instead of running a callback.
- ArraySort.SortBy: sorting is a stable insertion sort. For a comparator that is consistent in the sense of `Array.prototype.sort` (`ArraySort.Consistent`), this agrees with any stable sort, including the engine's. For an inconsistent comparator, the engine's order is implementation-defined and may differ from the model's.
- ArraySort.DefaultCompare: compares strings character by character. JavaScript's default sort compares UTF-16 code units, which orders characters outside the Basic Multilingual Plane differently.
- Strings are `seq<char>`. There is no normalisation or encoding.
- `TranslationCollection.Valid()` in the methods' preconditions is the representation invariant that every real object satisfies. It is not a demand the source makes.
- Several lemmas in `Transforms` require `InOwnContext()` of the input store. Every store that `assign` builds satisfies it, but a store handed to the constructor by a caller might not. `MappedRelocates` and `UnionDisjointCommutes` do not need it.
- The extractors, parsers, compilers and command line that produce and consume collections are not part of this model.
