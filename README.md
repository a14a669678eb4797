# A verified model of an in-memory document query engine and pivot builder

The system keeps a list of schemaless documents (dicts of scalars, lists,
nested dicts and dates) in memory. It indexes them and answers lookups such as
`find(price__gt=10).exclude(tag='x')`. It turns query results into summary
tables ("casts") that group by factors, pivot by further factors and compute
aggregates (Count, Sum, Avg, Min, Max, Median, Qu1, Qu3). The same design
exists in three generations: `dark/` (the newest, modelled in depth),
`datashaping/` and `datacasting/` (the oldest). The older two are modelled
where they differ.

The model is in Dafny, one module per concern:

- `Values` (values.dfy): field values, and one strict total order standing
  in for Python 2's mixed-type `sorted`.
- `Strings` (strings.dfy): `split("__")` and `"__".join`.
- `Lookups` (lookups.dfy): splitting `foo__bar__gt` into a key and a lookup
  type, the table of lookup predicates, and the lazily resolving condition
  object.
- `Unwrap` (unwrap.dfy): flattening a field into `(flat_key, scalar)` pairs.
  The deep form is that of `dark` and `datashaping`, including dates; the
  one-list-level form is that of `datacasting`.
- `Index` (index.dfy): the inverted index `key -> value -> [positions]`.
  Covers adding postings, removing one posting and pruning emptied branches.
  The index is specified by the postings the items determine.
- `Find` (find.dfy): coercing lookup values, exact and scanning lookups, and
  the include/exclude algorithm of `find_ids`.
- `Collection` and `Sorting`: the collection-level specifications shared by
  the stores, and the stable sort of `find_ids_sorted`.
- `DarkMemory` (memory.dfy): the newest store, a class over the data list,
  the deleted set and the index. Covers `add`, validated `delete`,
  tombstones, `values_for` with its cache, and `find_ids`.
- `ShapingMemory` and `ShapingQuery`: the `datashaping` store, whose delete
  empties items and rebuilds the index, and its lazy `Query`.
- `ShapingDb` (shaping_db.dfy): the `datashaping/db.py` dataset and query,
  including the ordering walk `_order_results`.
- `CastingDb` (casting_db.dfy): the `datacasting` dataset. Covers the
  `not_`/`in_`/`any_` special values, the scan `ids_by_lookups`, the
  one-level index, `inspect`, and the query with its `_prepare`
  intersection.
- `Iterators` (iterators.dfy): the chunked `CachedIterator` in front of a
  one-shot source.
- `Aggregates` (aggregates.dfy): the N/A policy of `count_for`, each `calc`,
  and the memoised `LazyCalculation`.
- `Pivot` (pivot.dfy): `cast`, meaning factor levels, level rows, pivot
  columns, cells and the heading.
  - Within the builder, the three generations differ in the `Config`
    switches: a None stub level, sorted levels, sorted pivot columns, and
    whether the factor-name list is a fresh one when empty.
  - The `datacasting` builder also differs through its Document: its hash
    reads the attribute `idx` instead of the primary key `_idx`, so its
    default `Count()` aggregate raises AttributeError on every non-empty
    query over items without an "idx" key. This is a Finding below. The
    builder is modelled with the intended count by primary key
    (`CastingPivot.CountAsWritten` against `CastingPivot.CountByPk`).
  - The query the builder works over is a parameter (`Ops`). `CastingPivot`
    instantiates it with the `datacasting` query.
- `Documents` (document.dfy): the read-only record proxy whose equality,
  hash and int conversion use the primary key only.

Two quirks are modelled as written rather than as Findings.

- A `find_ids` include set that becomes empty is replaced by the next
  positive condition's matches (`Find.IncludeRestarts`).
- In `datacasting`, `order_by` lists the results as Documents and then
  compares them with bare ids, so the ordering walk yields nothing
  (`CastingDb.OrderResultsOverDocuments`).

## Model

| member | source | states |
|---|---|---|
| Values.Get | dark/aggregates.py:117 | a non-None result is the value of an entry with that key |
| Values.Keys | dark/storage/memory.py:200 | the keys of a document, one per entry, in entry order |
| Values.StrictTotalOrder | dark/shaping.py:189 | the order `sorted` applies to levels is irreflexive, transitive and total over every pair of values |
| Values.SortSet | dark/storage/memory.py:223 | `sorted` over the distinct values of an index key holds exactly those values, strictly ascending |
| Values.StrictlySortedUnique | dark/storage/memory.py:223 | there is only one strictly ascending listing of a set of values |
| Values.Insert | dark/aggregates.py:159 | inserting into a sorted list keeps it sorted and adds exactly that value |
| Values.Sort | dark/aggregates.py:159 | `sorted(values)` is sorted and a permutation of its input |
| Strings.FirstDelim | datashaping/storage/base.py:227 | the found position holds `__` and no earlier position does; none found means no `__` in the string |
| Strings.Split | datashaping/storage/base.py:227 | `split("__")` gives at least one part, and no part contains `__` |
| Strings.JoinSplit | datashaping/storage/base.py:227-230 | `"__".join(s.split("__")) == s` |
| Strings.JoinSnoc | datashaping/storage/base.py:229-230 | joining with the last part popped, then adding it back, rebuilds the whole |
| Strings.SplitAppend | datashaping/storage/base.py:227 | `(s + "__" + t).split("__")` is `s.split("__") + [t]` for `t` free of `__` and `s` not ending with `_` |
| Strings.FirstDelimIs | datashaping/storage/base.py:227 | the leftmost delimiter is the one with none before it |
| Strings.AppendKeepsDelim | datashaping/storage/base.py:227 | a delimiter of `s` stays the leftmost of `s + "__" + t` |
| Strings.AppendAddsDelim | datashaping/storage/base.py:227 | with no delimiter in `s`, the appended one is the leftmost |
| Iterators.FillAppends | dark/utils/iterators.py:78-89 | a fill of `n` appends the next `min(n, remaining)` source items, drops the source exactly when `n` reads pass its end, and never reads a dropped source |
| Iterators.ToListOf | dark/utils/iterators.py:72-76 | a non-empty cache is kept as it is; an empty one becomes the whole source; the result is what the cache then holds |
| Iterators.EmptyExhaustedToList | dark/utils/iterators.py:72-89 | after one fill over an empty source the source is dropped and `_to_list` raises TypeError, where the intended result is `[]` |
| Iterators.ChunkExample | datacasting/iterating.py:45-58 | over fifteen items with chunks of ten, `[0]` caches ten items and `[10]` reads the last five and drops the source |
| Iterators.CachedIterator.constructor | dark/utils/iterators.py:17-21 | an empty cache; a missing iterable is a dropped source |
| Iterators.CachedIterator.FillCache | dark/utils/iterators.py:78-89 | the new buffer is `Fill` of the old one by `num`, or by the chunk size when `num` is 0 |
| Iterators.CachedIterator.GetItem | dark/utils/iterators.py:50-55 | an index past the cache first fills by `idx - len(cache) + chunk_size`; an index within the source yields that source item, one past it IndexError, a negative one counts from the end of the cache |
| Iterators.CachedIterator.ToList | dark/utils/iterators.py:72-76 | result and new state are `ToListOf` of the old state, the intended `_to_list` |
| Iterators.CachedIterator.Length | dark/utils/iterators.py:31 | the length of what `_to_list` returns, with the intended `_to_list` |
| Iterators.CachedIterator.Iterate | dark/utils/iterators.py:33-48 | every item of the source comes out once, in order, and the source ends fully cached and dropped |
| Lookups.ParseType | datashaping/storage/base.py:189-205 | a segment is recognised only as the lookup type whose name it is |
| Lookups.ParseTypeName | datashaping/storage/base.py:189-205 | each of the fourteen lookup types is recognised by its own name |
| Lookups.ResolveLookup | datashaping/storage/base.py:224-234 | a recognised type other than exact is the last "__" segment, and key + "__" + type gives back the lookup; otherwise the whole lookup is the key (or key + "__exact" is the lookup); `Dataset._resolve_lookup_key` at datashaping/db.py:380-387 follows the same rule |
| Lookups.ResolveCompose | datashaping/storage/base.py:227-231 | round trip: a key not ending in "_" joined with a type name resolves back to that key and type |
| Lookups.ResolveComposeUnderscore | datashaping/storage/base.py:227-228 | a key ending in "_" does not survive: `a___gt` resolves to an exact lookup of the whole string |
| Lookups.Weekday | datashaping/storage/base.py:204 | `weekday()` is between 0 and 6 |
| Lookups.Member | datashaping/storage/base.py:196-197 | `in` on a list is list membership; on a string, substring search, and a non-string element raises TypeError; on a dict, key membership, and a list or dict element raises TypeError; any other container raises TypeError |
| Lookups.Holds | datashaping/storage/base.py:189-205 | exact and not are equality and its negation; gt holds iff the query value is below the stored one, lt the mirror, gte and lte add equality; filled iff the stored value is not None, exists always; in is the stored value's membership in the query value and contains the reverse; the comparison lookups never fail; year, month, day and week_day compare the query value with that part of a stored date and raise AttributeError on a non-date |
| Lookups.OrderLookupsMirror | datashaping/storage/base.py:192-195 | gt and lt are mirror images and never both hold; gte is gt or equality |
| Lookups.LookupDualities | datashaping/storage/base.py:189-198 | not is the negation of exact, in is contains with the two values swapped, and lte is gte swapped |
| Lookups.ContainsItself | datashaping/storage/base.py:197 | a string contains itself and the empty string |
| Lookups.Criteria | datashaping/db.py:148-163 | `find(**kw)` / `exclude(**kw)` make one criterion per keyword, in order, with the given negate flag |
| Lookups.Condition.constructor | datashaping/storage/base.py:207-212 | a condition keeps lookup, value and negate, with nothing resolved yet |
| Lookups.Condition.ResolveLookupNow | datashaping/storage/base.py:224-234 | resolving stores the key and type of `ResolveLookup` |
| Lookups.Condition.Key | datashaping/storage/base.py:214-217 | the key property is the resolved key, and a kept non-empty key is not re-resolved |
| Lookups.Condition.Type | datashaping/storage/base.py:219-222 | the lookup_type property is the resolved type |
| Unwrap.UnwrapValue | dark/storage/memory.py:306-349 | every pair holds a scalar under the key itself or a key nested below it |
| Unwrap.UnwrapItems | dark/storage/memory.py:310-316 | the elements of a list unwrap to scalars under the same key or below it |
| Unwrap.UnwrapEntries | dark/storage/memory.py:317-324 | the entries of a dict unwrap to scalars under keys nested below the parent key |
| Unwrap.DocPairs | dark/storage/memory.py:253-254 | every pair a document is indexed under holds a scalar |
| Unwrap.UnwrapScalar | datashaping/storage/memory.py:285-291 | a scalar gives one pair under its own key |
| Unwrap.UnwrapItemsAppend | datashaping/storage/memory.py:252-258 | a list unwraps to the concatenated unwraps of its elements, under the same key |
| Unwrap.UnwrapNestedList | datashaping/storage/memory.py:252-258 | a list nested in a list unwraps like the flattened list |
| Unwrap.UnwrapDate | datashaping/storage/memory.py:267-284 | a date gives itself, then its year, month and day under `key__year`, `key__month`, `key__day` |
| Unwrap.UnwrapEntriesAppend | datashaping/storage/memory.py:259-266 | a dict unwraps to the concatenated unwraps of its entries |
| Unwrap.UnwrapDictSnoc | datashaping/storage/memory.py:262-265 | one more dict entry adds the pairs of its value under `key + "__" + inner_key` |
| Unwrap.UnwrapCount | datashaping/storage/memory.py:248-291 | a value gives one pair per scalar leaf and four per date |
| Unwrap.UnwrapOne | datacasting/db.py:402-408 | a list is returned as it is; anything else is wrapped in a one-element list |
| Unwrap.ShallowPairs | datacasting/db.py:392-400 | the pairs datacasting indexes a document under come from exactly its top-level non-None entries, one list level deep |
| Unwrap.ShallowPairsSnoc | datacasting/db.py:396-400 | one more entry adds its pairs at the end |
| Unwrap.ShallowValuePairs | datacasting/db.py:399-400 | one pair per unwrapped value, under the top-level key |
| Index.Rep | dark/storage/memory.py:255 | a posting repeated once per occurrence |
| Index.ExactIds | dark/storage/memory.py:192-194 | `ids_by` hashes the value even for a missing key: a list or dict raises TypeError, and otherwise the result is the posting list |
| Index.PostingsAscending | datashaping/storage/memory.py:207-211 | posting lists are in ascending position order |
| Index.PostingsSameCounts | dark/storage/memory.py:251-255 | postings depend only on how often each item holds the pair |
| Index.AddPair | dark/storage/memory.py:255 | `setdefault(k, {}).setdefault(v, []).append(pk)` appends pk to that posting list only, and creates nothing empty |
| Index.AddPairsLookup | dark/storage/memory.py:251-255 | indexing an item appends its position once per occurrence of each pair, and nothing else |
| Index.AddItemConsistent | dark/storage/memory.py:45-50 | indexing an appended item keeps the index exactly the postings of the longer list |
| Index.AddUnindexedConsistent | dark/storage/memory.py:46-49 | an item appended with `refresh_index=False` counts as holding no pairs |
| Index.AddPairsAppend | dark/storage/memory.py:253-255 | posting pairs in two runs is posting them in one |
| Index.ConsistentBounded | dark/storage/memory.py:251-255 | every posting names an existing item |
| Index.EmptyConsistent | dark/storage/memory.py:241 | an empty index is consistent with items holding no pairs |
| Index.RemoveFirst | dark/storage/memory.py:263-265 | `pop(index(x))` drops exactly one occurrence of a present x and leaves a list without x unchanged |
| Index.RemovePosting | dark/storage/memory.py:262-274 | the intended step: drop the first posting of pk for the pair, prune emptied branches, change no other posting; a missing posting changes nothing |
| Index.DropValue | dark/storage/memory.py:271-274 | deleting an emptied value (and an emptied key) changes no other posting |
| Index.SetValue | dark/storage/memory.py:265 | writing back a non-empty posting list changes no other posting |
| Index.RemovePostingAsWritten | dark/storage/memory.py:262-268 | as written: ValueError escapes exactly when the value is indexed but pk is not among its postings; otherwise the intended step |
| Index.RemovePostingAgrees | dark/storage/memory.py:262-274 | for a posting that is there, the written and the intended step agree |
| Index.RemovePostingStaleRaises | dark/storage/memory.py:262-268 | a stale index makes the written step raise ValueError where the intended one changes nothing |
| Index.PostingsRemoveFirst | dark/storage/memory.py:263-265 | dropping the first posting of pk is what the postings become when one occurrence of the pair leaves item pk |
| Index.RemovePostingLookup | dark/storage/memory.py:262-274 | one removal step leaves every posting list as the postings of the items with one pair taken out |
| Index.RemovePostingConsistent | dark/storage/memory.py:262-274 | removing one pair of item pk keeps the index consistent with the item's remaining pairs |
| Index.RemovePairsConsistent | dark/storage/memory.py:257-274 | removing an item's pairs takes exactly those pairs out of what the index holds for it |
| Index.PostingsMembership | dark/storage/memory.py:251-255 | a position is posted under a pair exactly when that item holds the pair |
| Index.PostingsCount | dark/storage/memory.py:251-255 | a position is posted under a pair as often as its item holds the pair |
| Index.AddPairsPruned | dark/storage/memory.py:255 | indexing never leaves an empty value or key behind |
| Sorting.PrecedesIrreflexive | dark/storage/memory.py:188-189 | no key sorts before itself, in either direction |
| Sorting.PrecedesAsymmetric | dark/storage/memory.py:188-189 | two keys never sort before each other |
| Sorting.PrecedesTransitive | dark/storage/memory.py:188-189 | not sorting after is transitive, so the sort order is a weak order |
| Lookups.TypeNameUndelimited | datashaping/storage/base.py:228 | no lookup type name contains `__`, so a type name is always one whole part of the split |
| DarkMemory.StopsDeleteRun | dark/storage/memory.py:78-82 | once a deletion raises, the later positions are never reached |
| Find.StopsEvaluate | dark/storage/memory.py:156-168 | once a condition fails, the later conditions are never evaluated |
| Find.ItemOfHit | dark/storage/memory.py:150-160 | a position found under a selected indexed value belongs to an item holding a selected value |
| Find.HitOfItem | dark/storage/memory.py:150-160 | an item holding a selected value is found under that indexed value |
| Find.PaddedValue | dark/storage/memory.py:293 | the digits written read back as the number |
| ShapingDb.DistinctCounts | datashaping/db.py:312 | a list is duplicate-free exactly when no element occurs twice in its multiset |
| Unwrap.NestedExtends | dark/storage/memory.py:317-324 | a key below a nested key is also below its parent |
| Collection.Items | dark/storage/memory.py:251-255 | what an up-to-date index holds for each position: the item's unwrapped pairs, nothing for a deleted item |
| Collection.BuildIndexConsistent | dark/storage/memory.py:237-247 | a freshly built index holds exactly the postings of every item's pairs |
| Collection.PresentItems | datashaping/storage/memory.py:201-214 | documents none of which is deleted are indexed under exactly their pairs |
| Collection.FilterValues | dark/storage/memory.py:226-231 | an empty filter keeps every value; otherwise exactly the values with a posting among the filter, order kept |
| Collection.Kept | dark/storage/memory.py:229-231 | exactly the values with a posting among the filter, sortedness kept |
| Collection.ValuesForMeaning | dark/storage/memory.py:213-231 | on a consistent index, `values_for(key, filter_by)` yields exactly the values of the key held by some filtered position |
| Collection.SortAll | dark/storage/memory.py:186-190 | the sorts applied in turn give a permutation of the ids, sorted by the last ordering key |
| Collection.SortFound | dark/storage/memory.py:186-190 | `find_ids_sorted` on the result of `find_ids`, as `SortedResult` |
| Collection.AddAll | dark/storage/memory.py:254-255 | the posting loop computes `AddPairs` |
| Collection.RemoveAll | dark/storage/memory.py:260-274 | the removal loop computes `RemovePairs` |
| Collection.IndexItem | dark/storage/memory.py:251-255 | indexing one item adds its document pairs under pk |
| Collection.UnindexItem | dark/storage/memory.py:257-274 | unindexing one item removes its document pairs for pk |
| Collection.IndexAll | dark/storage/memory.py:237-244 | the loop of `_build_index` computes `BuildIndexOf` |
| Collection.SortIds | dark/storage/memory.py:187-189 | the sorting loop computes `SortAll` |
| Collection.CheckKeys | dark/storage/memory.py:71-76 | the check `[self.data[pk] for pk in ids]` passes exactly when every pk is a valid Python index, negative ones counting from the end |
| Sorting.InsertBy | dark/storage/memory.py:188-189 | inserting into a sorted list keeps it sorted and adds exactly the one id |
| Sorting.SortBy | dark/storage/memory.py:188-189 | `ids.sort(key, reverse)`: a permutation of the ids, sorted by the key in the requested direction |
| Sorting.SortBySorted | dark/storage/memory.py:188-189 | sorting a list already in order changes nothing |
| Sorting.SortByIdempotent | dark/storage/memory.py:188-189 | sorting twice by the same key is sorting once |
| Sorting.SortByStable | dark/storage/memory.py:188-189 | the sort is stable: ids with the same key value keep their relative order |
| Sorting.InsertWithKey | dark/storage/memory.py:188-189 | an inserted id goes after every id with the same key value |
| Find.ParseDate | dark/storage/memory.py:291-295 | a string coerces only to a valid calendar date written `YYYY-MM-DD` |
| Find.Padded | dark/storage/memory.py:293 | a number written with exactly the given count of digits |
| Find.ParseFormatDate | dark/storage/memory.py:291-295 | every valid date written as `YYYY-MM-DD` coerces back to that date |
| Find.SafeComparisonValue | dark/storage/memory.py:276-301 | only a string against a stored date is coerced; anything else is compared as it is; a failed coercion raises TypeError |
| Find.Rewrite | dark/storage/memory.py:130-154 | the key is the resolved key; `not` becomes `exact` with the negation flipped; `exact` with None becomes `filled` with False; other types keep the negation |
| Find.ExistsDuality | dark/storage/memory.py:151-154 | `find(k__exists=False)` asks the same as `exclude(k__exists=True)`, and likewise for filled |
| Find.NoneIsNotFilled | dark/storage/memory.py:136-138 | `find(k=None)` is answered as `find(k__filled=False)`, that is as excluding filled values |
| Find.IndexedValues | dark/storage/memory.py:222-223 | the strictly sorted values indexed under the key, and no others |
| Find.CacheExtendsView | dark/storage/memory.py:222-224 | a cache that only gained current lists reads the same as the index |
| Find.ScanMembers | dark/storage/memory.py:156-160 | a scan finds exactly the postings of the values the lookup selects |
| Find.ScanOneMembers | dark/storage/memory.py:157-160 | one stored value adds its postings exactly when the lookup holds for it |
| Find.AddAnswer | dark/storage/memory.py:161-165 | excluded ids join `ids_exclude`; included ids intersect a non-empty `ids_include` and replace it when it is None or empty |
| Find.Below | dark/storage/memory.py:171-172 | `set(xrange(0, n))`: exactly the positions below n |
| Find.Members | dark/storage/memory.py:161 | `set(found)` holds exactly the found ids, and is empty exactly when nothing was found |
| Find.AccumulateBails | dark/storage/memory.py:166-168 | once an answer is empty the search stays bailed out |
| Find.EmptyAnswerEmptiesResult | dark/storage/memory.py:166-168 | a reached condition that finds nothing makes the whole result empty |
| Find.CombineVersusConjunction | dark/storage/memory.py:161-174 | the result always contains the conjunction of the conditions, and equals it when the include set was never emptied with positive conditions still to come |
| Find.IncludeRestarts | dark/storage/memory.py:165 | the include restart: answers {0}, {1}, {0, 1} yield {0, 1} although no position satisfies all three |
| Find.UnmatchedExclusionEmpties | dark/storage/memory.py:161-168 | an exclusion that matches nothing bails out too and empties the result |
| Find.ExclusionsStartFromAll | dark/storage/memory.py:170-174 | exclusions alone start from every position, deleted ones included |
| Find.ExactFinds | dark/storage/memory.py:147-149 | an exact lookup with a list or dict value raises TypeError; otherwise, on a consistent index, it finds exactly the positions whose item holds the pair |
| Find.ScanFinds | dark/storage/memory.py:150-160 | on a consistent index, a scanning lookup finds exactly the positions holding some value of the key that the lookup selects |
| Find.Ascending | dark/storage/memory.py:174 | a set of positions enumerated strictly ascending, with exactly its members |
| Find.Enumerate | dark/storage/memory.py:174 | the enumeration loop yields `Ascending` |
| Find.CachedValues | dark/storage/memory.py:222-224 | `values_for` without a filter reads the cached list, or computes and caches the sorted indexed values |
| Find.ScanValues | dark/storage/memory.py:156-160 | the scanning loop computes `Scan` |
| Find.AnswerCondition | dark/storage/memory.py:145-160 | `found` for one rewritten condition: the posting list of an exact lookup (TypeError for a list or dict value) or the scan, the cache only gaining current lists |
| Find.ConsiderCondition | dark/storage/memory.py:121-168 | one pass of the condition loop extends the evaluation and the running sets, or bails out |
| Find.FindFails | dark/storage/memory.py:156-158 | an error in a reached condition is the result of the whole search |
| Find.UnhashableExactFails | dark/storage/memory.py:147-149 | a reached exact condition with a list or dict value makes the whole search raise TypeError |
| Find.FindStops | dark/storage/memory.py:166-168 | a reached condition that finds nothing makes the search find nothing |
| Find.FindStep | dark/storage/memory.py:121-168 | one pass of the loop, with the search's outcome when it stops there |
| Find.FindIdsIn | dark/storage/memory.py:118-174 | the condition loop of `find_ids` returns `FindSpec`, including the TypeError of an exact lookup with a list or dict value, and leaves the cache only extended |
| DarkMemory.Live | dark/storage/memory.py:114-116 | the positions whose item is not None |
| DarkMemory.DeleteStep | dark/storage/memory.py:78-82 | one deletion turn adds pk to `_deleted` and sets the item at the Python position of pk (negative pks count from the end) to None; with `refresh_index` on an item already None it raises AttributeError and changes nothing else; the index changes only under `refresh_index` and a non-negative pk, using the intended removal step |
| DarkMemory.DeleteRun | dark/storage/memory.py:78-82 | the deletion loop keeps the length of the data |
| DarkMemory.DeletableSnoc | dark/storage/memory.py:78-82 | positions stay deletable one more at a time exactly when the new one is live and not repeated |
| DarkMemory.DeleteRunData | dark/storage/memory.py:78-82 | without an error, exactly the positions the pks name become None |
| DarkMemory.DeleteRunFails | dark/storage/memory.py:78-82 | with `refresh_index`, AttributeError exactly when some named position is already None or named twice; without it, no error (with the intended removal step) |
| DarkMemory.DeleteRunDeleted | dark/storage/memory.py:79 | `_deleted` gains exactly the pks as given, negative ones included (up to the one that raised) |
| DarkMemory.DeleteRunTombstones | dark/storage/memory.py:78-82 | with non-negative pks, `_deleted` stays equal to the None positions |
| DarkMemory.NegativeKeyStaysFound | dark/storage/memory.py:79-82 | a negative pk empties the item it names but adds the negative number to `_deleted`, so `find_ids()` still yields that position, and the index is left as it was |
| DarkMemory.TombstonesAppend | dark/storage/memory.py:46 | appending an item keeps `_deleted` equal to the None positions |
| DarkMemory.TombstonesSet | dark/storage/memory.py:79-82 | deleting a position keeps `_deleted` equal to the None positions |
| DarkMemory.ItemsTombstone | dark/storage/memory.py:257-274 | emptying a position takes its pairs out of the indexed items |
| DarkMemory.DeleteStepConsistent | dark/storage/memory.py:257-274 | one deletion turn with `refresh_index` keeps the index exactly the postings of the items |
| DarkMemory.DeleteRunConsistent | dark/storage/memory.py:257-274 | a deletion with `refresh_index` and non-negative pks leaves the index exactly the postings of the remaining items |
| DarkMemory.FindIdsNoConditions | dark/storage/memory.py:114-116 | no conditions, with `_deleted` the None positions: exactly the positions not in `_deleted`, ascending |
| DarkMemory.DeleteRunLast | dark/storage/memory.py:78-82 | the loop over one more position is one more turn, unless it already stopped |
| DarkMemory.MemoryCollection.constructor | dark/storage/memory.py:25-29 | keeps the items, no deletions, an index built from every item and an empty values cache |
| DarkMemory.MemoryCollection.BuildIndex | dark/storage/memory.py:237-247 | the index is rebuilt from every item and the values cache emptied |
| DarkMemory.MemoryCollection.BuildIndexForItem | dark/storage/memory.py:251-255 | pk is appended to the postings of every pair the item unwraps to |
| DarkMemory.MemoryCollection.RemoveIndexForItem | dark/storage/memory.py:257-274 | a None item raises AttributeError and changes nothing; for a non-negative pk one posting of pk is removed for every pair of the item, emptied branches pruned; a negative pk, never posted, leaves the index as it was (intended removal step); the index stays consistent |
| DarkMemory.MemoryCollection.Add | dark/storage/memory.py:35-50 | the item is appended, pk is the old length, and with `refresh_index` its pairs are posted under pk |
| DarkMemory.MemoryCollection.DeleteOne | dark/storage/memory.py:78-82 | one deletion turn changes the state as `DeleteStep`, and with `refresh_index` and a non-negative pk keeps the index fresh |
| DarkMemory.MemoryCollection.DeleteNext | dark/storage/memory.py:78-82 | turn j moves the state to the run over the first j + 1 positions |
| DarkMemory.MemoryCollection.Delete | dark/storage/memory.py:52-82 | a pk outside Python indexing of the data raises IndexError and changes nothing; otherwise the state is the deletion run; with non-negative pks a refreshed index stays fresh and `_deleted` stays the None positions |
| DarkMemory.MemoryCollection.DeleteAll | dark/storage/memory.py:78-82 | the loop leaves the state and error of the deletion run |
| DarkMemory.MemoryCollection.FetchOne | dark/storage/memory.py:88-94 | Python indexing, negative positions from the end; anything else raises IndexError |
| DarkMemory.MemoryCollection.IdsBy | dark/storage/memory.py:192-194 | a list or dict value raises TypeError; otherwise exactly the positions whose indexed pairs hold (key, value), ascending |
| DarkMemory.MemoryCollection.ValuesFor | dark/storage/memory.py:213-231 | the cached sorted distinct values of the key, filtered to those with a posting in `filter_by` when it is non-empty; only this key's cache entry changes |
| DarkMemory.MemoryCollection.FindIds | dark/storage/memory.py:96-174 | `find_ids` is the shared find semantics over the live positions, including the TypeError of an exact lookup with a list or dict value; nothing but the values cache changes |
| DarkMemory.MemoryCollection.FindIdsSorted | dark/storage/memory.py:176-190 | the found ids sorted by each ordering key in turn; a deleted item's key raises AttributeError |
| ShapingMemory.Range | datashaping/storage/memory.py:88-89 | `xrange(0, n)`: every position below n, ascending |
| ShapingMemory.Cleared | datashaping/storage/memory.py:51-52 | each position a pk names (negative ones from the end) becomes `{}` and every other document is unchanged |
| ShapingMemory.FindIdsInRange | datashaping/storage/memory.py:70-147 | every id `find_ids` yields is a position of the collection |
| ShapingMemory.SortingNeverFails | datashaping/storage/memory.py:149-163 | `find_ids_sorted` fails only when `find_ids` does, and then returns a permutation of the found ids sorted by the last key |
| ShapingMemory.EmptiedNotIndexed | datashaping/storage/memory.py:51-56 | once the index is rebuilt, an emptied document has no posting, although `find_ids()` still yields its position |
| ShapingMemory.MemoryCollection.constructor | datashaping/storage/memory.py:25-27 | keeps the documents and builds the index from them |
| ShapingMemory.MemoryCollection.BuildIndex | datashaping/storage/memory.py:201-214 | the index is rebuilt from every document and the values cache emptied |
| ShapingMemory.MemoryCollection.Delete | datashaping/storage/memory.py:33-56 | a pk outside Python indexing of the documents raises IndexError and changes nothing; otherwise the named documents become `{}`, and with `refresh_index` the index is rebuilt, else left stale |
| ShapingMemory.MemoryCollection.FetchOne | datashaping/storage/memory.py:62-68 | Python indexing, negative positions from the end; anything else raises IndexError |
| ShapingMemory.MemoryCollection.IdsBy | datashaping/storage/memory.py:165-167 | a list or dict value raises TypeError; otherwise exactly the positions whose indexed pairs hold (key, value), ascending |
| ShapingMemory.MemoryCollection.ValuesFor | datashaping/storage/memory.py:178-195 | the cached sorted distinct values of the key, filtered by `filter_by` when it is non-empty |
| ShapingMemory.MemoryCollection.FindIds | datashaping/storage/memory.py:70-147 | `find_ids` is the shared find semantics over every position, including the TypeError of an exact lookup with a list or dict value; only the values cache changes |
| ShapingMemory.MemoryCollection.FindIdsSorted | datashaping/storage/memory.py:149-163 | the found ids sorted by each ordering key in turn |
| ShapingMemory.ClearAll | datashaping/storage/memory.py:51-52 | the emptying loop, indexing as Python does, leaves `Cleared(data, ids)` |
| ShapingQuery.ResolveOrderingKey | datashaping/query.py:126-133 | `-k` gives (k, True) and `k` gives (k, False), so re-adding the dash gives back the key; an empty key raises IndexError |
| ShapingQuery.OrderDict | datashaping/query.py:72-73 | building the ordering dictionary fails with IndexError exactly when some key is empty |
| ShapingQuery.ResolvedAll | datashaping/query.py:73 | one resolved pair per key, in order |
| ShapingQuery.DictOfMeaning | datashaping/query.py:73 | `dict(pairs)` holds exactly the named fields, each with the flag of the last pair naming it |
| ShapingQuery.OrderDictResolved | datashaping/query.py:73 | resolving the keys one at a time builds the dictionary of their pairs |
| ShapingQuery.OrderDictMeaning | datashaping/query.py:72-73 | the ordering dictionary holds exactly the named fields, each with the reverse flag of the last key naming it |
| ShapingQuery.CloneResetsReverse | datashaping/query.py:71-73 | a clone re-parses the stored field names, so every reverse flag becomes False, whatever order the keys are iterated in |
| ShapingQuery.CloneOrder | datashaping/query.py:190-191 | the dictionary a clone builds has the same keys, each flag False |
| ShapingQuery.PlainPairs | datashaping/query.py:126-133 | keys without a leading dash resolve to themselves, not reversed |
| ShapingQuery.CloneReparsesDashedKey | datashaping/query.py:126-133 | `order_by('--k')` stores field `-k` reversed, and its clone parses it again as `k` reversed |
| ShapingQuery.QueryResultPermutes | datashaping/query.py:200-210 | the executed ids are the found ids, sorted by the last ordering key iterated, or ascending without ordering |
| ShapingQuery.Query.constructor | datashaping/query.py:64-78 | a query keeps storage, lookups and the resolved ordering, and has executed nothing |
| ShapingQuery.Query.Find | datashaping/query.py:112-124 | a new query with (k, v, False) criteria appended and the ordering re-parsed; an empty stored key raises IndexError |
| ShapingQuery.Query.Exclude | datashaping/query.py:105-110 | as `find`, with (k, v, True) criteria |
| ShapingQuery.Query.OrderBy | datashaping/query.py:135-136 | a new query ordered by the given keys, or by the re-parsed current keys when none are given |
| ShapingQuery.Query.Execute | datashaping/query.py:194-210 | the first call runs `find_ids_sorted` when ordered, `find_ids` otherwise, and keeps the ids; later calls return the kept ids |
| ShapingQuery.Query.Count | datashaping/query.py:87-103 | `count()` is the length of the executed ids |
| ShapingQuery.Query.ValuesFor | datashaping/query.py:138-154 | no lookups: the storage's values; lookups and no result: nothing; otherwise the values filtered by the executed ids |
| ShapingQuery.NewQuery | datashaping/query.py:64-78 | the ordering keys are resolved first, and an empty key raises IndexError |
| ShapingDb.Walk | datashaping/db.py:308-312 | one value's walk yields only posted ids and moves ids out of the list without losing or adding any |
| ShapingDb.OrderedWalk | datashaping/db.py:302-312 | `_order_results` as written: every yielded id is posted under some walked value, and yielded plus left-over ids are the ids given |
| ShapingDb.OrderedIds | datashaping/db.py:302-312 | the ordered iteration yields each id at most once, and exactly the given ids posted under some value |
| ShapingDb.OrderedWalkDistinct | datashaping/db.py:312 | with distinct ids, no id is yielded twice and the left-over list stays distinct |
| ShapingDb.WalkComplete | datashaping/db.py:309-312 | one value's walk pops exactly the given ids it posts |
| ShapingDb.OrderedWalkComplete | datashaping/db.py:307-312 | the walk yields exactly the ids posted under some value and leaves exactly the others |
| ShapingDb.FirstPosting | datashaping/db.py:307-310 | the first walked value that posts an id |
| ShapingDb.OrderedWalkOrder | datashaping/db.py:307-312 | ids come out in the order of the first value that posts them |
| ShapingDb.RestNotPosted | datashaping/db.py:307-312 | an id yielded after the first value's walk is not posted under the first value |
| ShapingDb.OrderValues | datashaping/db.py:304-306 | the walked values are the sorted values, or the same values reversed |
| ShapingDb.OrderingConsumesIds | datashaping/db.py:242-243 | an ordered walk over the query's own id list empties it, so `len(query)` drops from 1 to 0 |
| ShapingDb.Dataset.constructor | datashaping/db.py:335-337 | a dataset keeps its documents and indexes them |
| ShapingDb.Dataset.BuildIndex | datashaping/db.py:603-616 | the index is rebuilt from every document and the values cache is emptied |
| ShapingDb.Dataset.GetDoc | datashaping/db.py:355-361 | Python indexing, negative positions from the end; anything else raises IndexError |
| ShapingDb.Dataset.ValuesFor | datashaping/db.py:367-374 | the strictly sorted distinct values some document holds under the key, cached under that key |
| ShapingDb.Dataset.IdsBy | datashaping/db.py:376-378 | a list or dict value raises TypeError; otherwise exactly the documents holding the key and value, in ascending order |
| ShapingDb.Dataset.FindIds | datashaping/db.py:416-549 | `find_ids` is the shared find semantics, including the TypeError of an exact lookup with a list or dict value, and the values cache only grows with current lists |
| ShapingDb.IndexedValuesMeaning | datashaping/db.py:367-374 | on a consistent index, the indexed values of a key are those some document holds |
| ShapingDb.FoundDistinct | datashaping/db.py:494-549 | no id is yielded twice |
| ShapingDb.Query.constructor | datashaping/db.py:108-121 | a fresh query keeps its lookups and ordering and has executed nothing |
| ShapingDb.Query.Clone | datashaping/db.py:206-215 | the clone extends the lookups, keeps the current ordering key unless a new one is given, and takes the given reverse flag |
| ShapingDb.Query.Find | datashaping/db.py:152-163 | lookups become the old ones plus (k, v, False) triples; the reverse flag is reset |
| ShapingDb.Query.Exclude | datashaping/db.py:148-150 | lookups become the old ones plus (k, v, True) triples; the reverse flag is reset |
| ShapingDb.Query.OrderBy | datashaping/db.py:165-171 | `-k` orders by k reversed, `k` by k; an empty key raises IndexError |
| ShapingDb.Query.Execute | datashaping/db.py:217-230 | the first call runs `find_ids` and keeps the list; later calls return the kept list |
| ShapingDb.Query.Count | datashaping/db.py:130-146 | `count()` is the length of the executed id list, the same on every call (the ordering walk runs on a copy, as intended) |
| ShapingDb.Query.ValuesFor | datashaping/db.py:173-193 | no lookups: the dataset's sorted values; otherwise those with a posting among the executed ids, still strictly sorted |
| ShapingDb.Query.Prepare | datashaping/db.py:232-274 | executes once; an ordered query yields the ids of `OrderedIds`, otherwise the id list; the kept id list is left as it was (the intended walk over a copy) |
| ShapingDb.KeptStrictlySorted | datashaping/db.py:192-193 | filtering the sorted values keeps them strictly sorted |
| ShapingDb.QueryValuesMeaning | datashaping/db.py:173-193 | a value is kept iff some matched document holds it under the key |
| CastingDb.NeAsWritten | datacasting/db.py:124-132 | as written: `not_` and plain values differ exactly when they are not equal, but an `in_` value, having no `__ne__`, differs from everything |
| CastingDb.Ne | datacasting/db.py:124-132 | as intended: differing is exactly not being equal, for every special value |
| CastingDb.NotMeaning | datacasting/db.py:124-129 | `not_(x)` equals exactly the values other than `x`, and so `any_` equals exactly the non-None values |
| CastingDb.InLookupNeverMatches | datacasting/db.py:379-382 | as written no item ever matches an `in_` lookup; with the intended comparison exactly the items holding the key with a value among the choices match |
| CastingDb.InLookupExample | datacasting/db.py:131-132 | `find(k=in_([1]))` misses the item `{k: 1}` as written and finds it as intended |
| CastingDb.MatchingIds | datacasting/db.py:371-386 | the positions yielded are exactly those of the items every lookup holds for, in ascending order; `!=` is the intended negation of `==` (`CastingDb.Ne`) |
| CastingDb.AscendingUnique | datacasting/db.py:371-386 | two ascending lists of positions with the same members are equal |
| CastingDb.MatchingIdsSingle | datacasting/db.py:274-282 | an item matches all the lookups exactly when it matches each one run alone |
| CastingDb.ShallowItems | datacasting/db.py:395-400 | what the index holds for each item is the multiset of its top-level pairs |
| CastingDb.ShallowIndexConsistent | datacasting/db.py:392-400 | the rebuilt index holds exactly the postings of every item's top-level pairs |
| CastingDb.IndexShallow | datacasting/db.py:396-400 | the inner loops for one item post exactly its top-level pairs, or raise TypeError when a value to post is a dict or a nested list |
| CastingDb.IndexAllShallow | datacasting/db.py:392-400 | the loop over the items builds the index of all of them, or raises TypeError when some value to post is a dict or a nested list |
| CastingDb.ShallowItemsHold | datacasting/db.py:396-400 | an item's indexed pairs are exactly the pairs it holds at top level |
| CastingDb.TallyOne | datacasting/db.py:416-418 | one item adds one to the count of each key it fills with a non-None value and changes no other count |
| CastingDb.InspectCounts | datacasting/db.py:412-419 | `inspect()` holds a key exactly when some item fills it, counting the items that do |
| CastingDb.TallyItem | datacasting/db.py:416-418 | the loop over one item's keys computes `Tally` |
| CastingDb.Dataset.constructor | datacasting/db.py:336-338 | for items whose values can all be posted: keeps the items and builds their index |
| CastingDb.Dataset.Create | datacasting/db.py:336-338 | `Dataset(data)` raises TypeError exactly when some value to post is a dict or a nested list; otherwise a new dataset keeping the items, indexed by all their top-level pairs |
| CastingDb.Dataset.RebuildIndex | datacasting/db.py:392-400 | TypeError exactly when some value to post is a dict or a nested list; otherwise the index becomes that of the current items |
| CastingDb.Dataset.IdsByKeyAndValue | datacasting/db.py:368-369 | a list or dict value raises TypeError; otherwise, on a valid dataset, exactly the positions whose top-level value for the key is or contains `value` |
| CastingDb.Dataset.IdsByLookups | datacasting/db.py:371-386 | the positions of the items every lookup holds for, ascending; `!=` is the intended negation of `==` (`CastingDb.Ne`) |
| CastingDb.Dataset.Inspect | datacasting/db.py:412-419 | per key, the number of items holding a non-None value |
| CastingDb.ScanLookups | datacasting/db.py:371-386 | the scan computes `MatchingIds`; `!=` is the intended negation of `==` (`CastingDb.Ne`) |
| CastingDb.MatchingOn | datacasting/db.py:274-282 | the positions every lookup with a key in the given set holds for; `!=` is the intended negation of `==` (`CastingDb.Ne`) |
| CastingDb.Narrow | datacasting/db.py:274-276 | one lookup run alone gives its matches, and the common ids narrow to those matching one more lookup; `!=` is the intended negation of `==` (`CastingDb.Ne`) |
| CastingDb.IntersectStep | datacasting/db.py:274-282 | one round of the loop keeps the intersection invariant over one key fewer; `!=` is the intended negation of `==` (`CastingDb.Ne`) |
| CastingDb.IntersectLookups | datacasting/db.py:271-282 | as many result lists as lookups; a single one is kept as it is; the intersection holds exactly the items every lookup holds for; `!=` is the intended negation of `==` (`CastingDb.Ne`) |
| CastingDb.LookupIds | datacasting/db.py:270-284 | whether a single lookup, several intersected, or none, the ids are the items every lookup holds for, ascending; `!=` is the intended negation of `==` (`CastingDb.Ne`) |
| CastingDb.Wrap | datacasting/db.py:201-203 | each id becomes the Document at that position, in order |
| CastingDb.PopFirst | datacasting/db.py:327 | a list without the element is unchanged |
| CastingDb.WalkResultsOverDocuments | datacasting/db.py:324-327 | no posted id equals a Document, so the walk over one value yields nothing and pops nothing |
| CastingDb.OrderResultsOverDocuments | datacasting/db.py:314-328 | over the Documents `_to_list` returns, the ordering walk yields nothing |
| CastingDb.OrderResultsOverIds | datacasting/db.py:316-327 | over bare ids the walk does order them by value |
| CastingDb.ValuesOfMeaning | datacasting/db.py:252-259 | a value is collected exactly when some matching item's value for the key (None when missing) is or contains it |
| CastingDb.MissingKeyGivesNone | datacasting/db.py:256 | an item lacking the key contributes None |
| CastingDb.Query.constructor | datacasting/db.py:186-195 | keeps dataset, lookups and ordering; nothing run yet |
| CastingDb.Query.Find | datacasting/db.py:205-216 | a fresh query whose lookups are the old ones updated by `kw`, with the same ordering key and reverse reset |
| CastingDb.Query.OrderBy | datacasting/db.py:218-224 | a leading `-` asks for the reverse; an ordering key that is empty once stripped keeps the current one |
| CastingDb.Query.Values | datacasting/db.py:252-259 | a dict or nested list among the values raises TypeError; otherwise the sorted distinct values over the matching items, `flat` with any value raises AttributeError, and no value gives `[]`; `!=` is the intended negation of `==` (`CastingDb.Ne`) |
| CastingDb.Query.Prepare | datacasting/db.py:268-328 | once only: without an ordering key the matching ids become the iterator; with one, the results are listed as Documents into the cache and the iterator is left empty; `!=` is the intended negation of `==` (`CastingDb.Ne`) |
| CastingDb.Query.ToList | datacasting/iterator_cached.py:62-66 | on a fresh query, every matching item as a Document, in ascending order; `!=` is the intended negation of `==` (`CastingDb.Ne`) |
| CastingDb.Query.Count | datacasting/db.py:261-266 | on a fresh query, the number of items every lookup holds for, ordered or not; `!=` is the intended negation of `==` (`CastingDb.Ne`) |
| CastingPivot.NoneIsAValue | datacasting/db.py:256-258 | an item without the key makes None one of `values(key)` |
| CastingPivot.NoneMatchesNothing | datacasting/db.py:377-382 | no item of the two-item example matches `a == None` |
| CastingPivot.NoneLevelHasNoValues | datacasting/cast.py:308 | the None level of `a` narrows to a query with no values of `b` |
| CastingPivot.CastingQueries | datacasting/db.py:214-259 | the builder's `values(q, k)` is strictly ascending and holds exactly the values some item matching `q` holds for `k`, None for an item without it; an item matches `where(q, k, v)` exactly when it matches the other lookups of `q` and holds `v` under `k` |
| CastingPivot.NothingUnderNone | datacasting/db.py:252-259 | no item matches `a == None`, so none contributes a value of `b` |
| CastingPivot.NoneLevelChildless | datacasting/cast.py:301-310 | the None level of `a` gets no child level in this builder, and one None child in its successors |
| CastingPivot.ShortRowAsWritten | datacasting/cast.py:301-310 | grouping the example by `a` then `b` gives a row holding only a level of `a`, narrower than the heading |
| CastingPivot.HashAsWritten | datacasting/db.py:151-157 | as written, hashing a Document reads the attribute `idx`: AttributeError for an item without an "idx" key, TypeError for a list or dict there, else that value |
| CastingPivot.CountAsWritten | datacasting/aggregates.py:154-162 | as written, `Count()` over a query raises the first failing hash in query order, and otherwise counts the distinct positions |
| CastingPivot.KeylessCountRaises | datacasting/cast.py:353 | the default aggregate raises AttributeError on every non-empty query whose first item has no "idx" key |
| CastingPivot.ShortDataCountRaises | datacasting/cast.py:416-419 | counting the two items of the example, neither of which has "idx", raises AttributeError |
| CastingPivot.CountByPk | datacasting/db.py:149-151 | hashing by the primary key, as equality does, `Count()` is the number of distinct items: what `CountFor` of the default aggregate gives, and what the code as written gives whenever it does not raise |
| Aggregates.Display | dark/aggregates.py:97-98 | `str(aggregate)` is the class name, then the key (or `all` when there is none) in parentheses |
| Aggregates.Fetched | datashaping/aggregates.py:101-102 | one field per item, in item order, None where the key is missing |
| Aggregates.WithoutNulls | datashaping/aggregates.py:103-109 | no None remains and every other value is kept as often as it occurs |
| Aggregates.WithoutNullsAppend | datashaping/aggregates.py:101-110 | dropping None values works piece by piece and keeps the order |
| Aggregates.KeptSnoc | datashaping/aggregates.py:101-110 | one more item keeps its value at the end unless the skip policy drops a None |
| Aggregates.FetchedSnoc | datashaping/aggregates.py:101-102 | one more item adds its field at the end |
| Aggregates.CountFor | datashaping/aggregates.py:99-115 | a keyless Count counts distinct items; reject with any None gives None; otherwise the kept values (None dropped under skip, all of them otherwise) lazily, or NA when none remain |
| Aggregates.Total | datashaping/aggregates.py:178-181 | `sum(values, 0)` fails with TypeError exactly when some value is not a number |
| Aggregates.TotalAppend | datashaping/aggregates.py:178-181 | the sum of two joined lists is the sum of their sums |
| Aggregates.MaxOf | datashaping/aggregates.py:126-129 | the result is one of the values and no value is above it |
| Aggregates.MinOf | datashaping/aggregates.py:173-176 | the result is one of the values and no value is below it |
| Aggregates.Middle | datashaping/aggregates.py:140-150 | an odd-length sorted list gives its element at index `n >> 1`; only TypeError can be raised |
| Aggregates.MedianOf | datashaping/aggregates.py:138-150 | with an odd number of values the median is one of them |
| Aggregates.DistinctCount | datashaping/aggregates.py:195-196 | `len(set(values))` fails exactly on an unhashable list or dict, and lies between 1 and the number of values |
| Aggregates.DistinctBound | datashaping/aggregates.py:196 | a set of values is never larger than the list it came from |
| Aggregates.Calc | datashaping/aggregates.py:121-196 | every aggregate's calculation either succeeds or raises TypeError; Qu1 and Qu3 sort before slicing, as `dark` does |
| Aggregates.SortedUnique | dark/aggregates.py:159 | two sorted lists holding the same values as often are equal |
| Aggregates.SortedHeads | dark/aggregates.py:159 | two sorted lists holding the same values start with the same value |
| Aggregates.SortedTail | dark/aggregates.py:159 | the tail of a sorted list is sorted and holds all values but the head |
| Aggregates.SortOrderFree | dark/aggregates.py:159 | the sorted copy depends only on the multiset of values |
| Aggregates.SortedCalcsOrderFree | dark/aggregates.py:157-202 | Median, Qu1 and Qu3 give the same result however their input is ordered |
| Aggregates.SortSorted | dark/aggregates.py:192-194 | sorting an already sorted list changes nothing, so the re-sort in `Median.calc` is harmless |
| Aggregates.SortedInts | dark/aggregates.py:159 | in a sorted list of integers values rise with the index |
| Aggregates.MedianWithin | dark/aggregates.py:150-174 | the median of integers succeeds and lies within any bounds of the values |
| Aggregates.QuartilesOrdered | dark/aggregates.py:189-202 | with at least four integers both quartiles succeed and Qu1 is at most Qu3 |
| Aggregates.SortKeepsInts | dark/aggregates.py:159 | sorting integers gives integers |
| Aggregates.SliceWithin | dark/aggregates.py:192-202 | a slice of sorted integers lies between any value before it and any after it |
| Aggregates.MedianOfOne | dark/aggregates.py:157-164 | the median of one value is that value |
| Aggregates.QuartilesAsWrittenCrossed | datashaping/aggregates.py:162-171 | as written, on 4, 3, 2, 1 the unsorted slices give Qu1 = 4 above Qu3 = 1 |
| Aggregates.Evaluate | datashaping/aggregates.py:67-76 | no values give None; a calculation that raises TypeError becomes an AggregationError naming the aggregate and its key; otherwise the calculation's result |
| Aggregates.LazyCalculation.constructor | datashaping/aggregates.py:63-66 | keeps the aggregate and values, with no result yet |
| Aggregates.LazyCalculation.GetResult | datashaping/aggregates.py:67-76 | the answer is `Evaluate` of the aggregate and values; a truthy kept result is kept; a new result is stored |
| Aggregates.CountForItems | datashaping/aggregates.py:99-115 | the loop's outcome is `CountFor`, and a lazy calculation is created exactly for the lazy outcome, over its values |
| Pivot.Ordered | dark/shaping.py:63-64 | the values turned into levels are a permutation of the query's values, sorted where the builder sorts them |
| Pivot.NewLevels | dark/shaping.py:52-67 | every new level is childless and holds the query narrowed to its value; where the builder adds a stub level there is always at least one |
| Pivot.NewLevelsMeaning | dark/shaping.py:63-65 | the levels are the query's values, one level each, in the builder's order; no values give the single None level, or no level in the oldest builder |
| Pivot.AttachStep | dark/shaping.py:156-160 | one more parent of the layer being built gets the new levels appended and attached as its children, keeping the layers built so far |
| Pivot.AttachKeeps | dark/shaping.py:156-160 | what one attach step does keeps the layers built so far and attaches one more parent |
| Pivot.BuildLevels | dark/shaping.py:149-160 | one layer per factor: the first from the basic query, each later one the new levels of every level of the previous layer, attached to it as its children |
| Pivot.BuiltForward | dark/shaping.py:149-160 | children always come after their parent |
| Pivot.RowsFrom | dark/shaping.py:81-88 | `get_rows` yields lists of existing levels |
| Pivot.RowsList | dark/shaping.py:168-172 | the rows of a list of levels, in turn, name existing levels |
| Pivot.RowsArePaths | dark/shaping.py:81-88 | every row `get_rows` yields is the path from the level down to a childless level below it |
| Pivot.RowsListArePaths | dark/shaping.py:168-172 | every row of a list of levels is a path from one of them |
| Pivot.RowsWidth | dark/shaping.py:63-65 | where every level gets at least one child level, every row from a level of factor `d` has one level per factor from `d` on |
| Pivot.RowsListWidth | dark/shaping.py:168-172 | the same for the rows of a list of levels of one factor |
| Pivot.PathLayers | dark/shaping.py:156-160 | a path goes down one factor per step, each level narrowing its parent's query by its value |
| Pivot.ChildLayer | dark/shaping.py:72-80 | a child of a level of factor `m` is a level of factor `m + 1` whose query narrows its parent's |
| Pivot.PathQuery | dark/shaping.py:72-74 | along a row from the first factor each level's query is the basic query narrowed by every factor so far to the row's values |
| Pivot.NoteMeaning | dark/shaping.py:189-192 | recording keeps what was recorded, adds exactly the values whose narrowed query has results, and none twice |
| Pivot.Fresh | dark/shaping.py:183 | an empty list for each pivot factor and no other key |
| Pivot.NoteRow | dark/shaping.py:188-192 | one row's recording keeps the set of pivot factors |
| Pivot.Collected | dark/shaping.py:183-192 | recording over all rows keeps exactly the pivot factors as keys |
| Pivot.NoteRowMeaning | dark/shaping.py:188-192 | one row records, for each of its pivot factors, the values with results |
| Pivot.CollectedMeaning | dark/shaping.py:183-192 | a level of a pivot factor is recorded exactly when it occurs under some row with results, each once |
| Pivot.Columns | dark/shaping.py:200 | a factor's recorded levels, sorted where the builder sorts them, none lost or added |
| Pivot.LevelColumns | dark/shaping.py:200-203 | every column names one of the aggregates |
| Pivot.PivotColumns | dark/shaping.py:199-203 | every pivot column names one of the aggregates |
| Pivot.LevelColumnsWidth | dark/shaping.py:200-203 | one column per level and aggregate |
| Pivot.LevelColumnsMeaning | dark/shaping.py:200-203 | a factor's columns are exactly its (level, aggregate) pairs |
| Pivot.PivotColumnsWidth | dark/shaping.py:199-203 | one column per recorded level and aggregate |
| Pivot.PivotColumnsMeaning | dark/shaping.py:199-203 | the pivot columns are exactly the (pivot factor, recorded level, aggregate) triples |
| Pivot.CellsOf | dark/shaping.py:201-203 | one cell per column |
| Pivot.Totals | dark/shaping.py:206-207 | one total per aggregate |
| Pivot.HeadingsOf | dark/shaping.py:216-222 | one heading per column |
| Pivot.AggregateHeadings | dark/shaping.py:223-224 | one heading per aggregate |
| Pivot.Row | dark/shaping.py:202-203 | the columns of one level, one per aggregate, in aggregate order |
| Pivot.NoteValues | dark/shaping.py:189-192 | the recording loop for one factor and row computes `Note` |
| Pivot.NoteRowValues | dark/shaping.py:188-192 | the recording loop over the pivot factors computes `NoteRow` |
| Pivot.CollectPivots | dark/shaping.py:183-192 | the collecting pass computes `Collected` over the rows' last queries |
| Pivot.PivotLevelCells | dark/shaping.py:201-203 | one level's cells are each aggregate over the query narrowed to it |
| Pivot.FactorCells | dark/shaping.py:200-203 | one factor's cells follow its recorded levels in column order |
| Pivot.AppendCells | dark/shaping.py:195-207 | a row gains its pivot cells in column order, then its totals |
| Pivot.PivotCells | dark/shaping.py:199-203 | the pivot cells of a row follow `PivotColumns` |
| Pivot.TotalCells | dark/shaping.py:206-207 | each aggregate over the row's last query |
| Pivot.LevelHeadings | dark/shaping.py:217-222 | one aggregate gives the bare level; several give `"level aggregate"` for each |
| Pivot.FactorHeadings | dark/shaping.py:216-222 | one factor's headings follow its recorded levels in column order |
| Pivot.AppendHeadings | dark/shaping.py:214-224 | the heading is the factor names, then the pivot headings in column order, then `str(aggregate)` for each aggregate |
| Pivot.NameAggregates | dark/shaping.py:223-224 | `str(aggregate)` for each aggregate, in turn |
| Pivot.TopRows | dark/shaping.py:167-172 | the table's rows are the rows of each first-factor level, in turn |
| Pivot.RowOf | dark/shaping.py:195-207 | a finished row holds its level values, one cell per pivot column and one per aggregate |
| Pivot.Leaves | dark/shaping.py:167-172 | one list of level values per row |
| Pivot.BuiltNarrowing | dark/shaping.py:149-172 | every row's levels narrow the basic query factor by factor |
| Pivot.PathNarrows | dark/shaping.py:171 | a row's last level holds the basic query narrowed by all the row's values |
| Pivot.ReadRows | dark/shaping.py:167-172 | each row's level values, at most one per factor (exactly one where a stub level is added), with its last query being the basic query narrowed by them |
| Pivot.WithDefault | dark/shaping.py:147 | `aggregates or [Count()]`: the given aggregates, or a single keyless Count |
| Pivot.RowQueries | dark/shaping.py:171 | one last query per row |
| Pivot.HeadingList.constructor | dark/shaping.py:145 | the factor-name list holds the given names |
| Pivot.FillRows | dark/shaping.py:194-212 | each row is its level values, its pivot cells and totals over its last query |
| Pivot.CatchAllRows | dark/shaping.py:173-175 | without factors there is one row over the basic query, its catch-all cell removed |
| Pivot.CatchAllCells | dark/shaping.py:209-212 | dropping the leading catch-all cell leaves the row of an empty list of level values |
| Pivot.GroupRows | dark/shaping.py:149-175 | the levels of every factor and one row per path below the first factor, each with its last query; without factors the single catch-all row |
| Pivot.Tabulate | dark/shaping.py:182-212 | the recorded pivot levels are `Collected` over the rows' last queries, and every row is filled over its last query |
| Pivot.Cast | dark/shaping.py:102-226 | the table's rows group the basic query by the factors, a row per path; the heading is the factor names, pivot headings and aggregate names; a row is as wide as the heading exactly when it holds a level of every factor; the factor-name list is extended in place |
| Pivot.RowsFitHeading | dark/shaping.py:214-226 | a row is as wide as the heading exactly when it has a level per factor |
| Pivot.PivotColumnsCollected | dark/shaping.py:183-203 | a table has a pivot column for each aggregate and each level that occurs with results under some row's last query, each level once |
| Pivot.RowsListContains | dark/shaping.py:168-172 | every row of one of the levels is among the table's rows |
| Pivot.ChildlessTopRow | dark/shaping.py:63-65 | a first-factor level that gets no child level is a row of its own, one value wide |
| Documents.IntHash | dark/document.py:88 | `hash` of an integer is itself, except -1, and never -1 |
| Documents.FirstEmptyKey | dark/document.py:96-98 | position of the first empty key, where `key[0]` raises, and every key before it is non-empty |
| Documents.CopyAttrsKeys | dark/document.py:96-98 | copying sets exactly the attributes already there plus the public keys of the entries |
| Documents.GetUnique | dark/document.py:81 | in a dict, `get` returns the value of the one entry with that key |
| Documents.FirstGet | dark/document.py:81 | `get` finds an entry with the key and returns its value |
| Documents.CopyPublic | dark/document.py:95-99 | the copying loop stops at the first empty key, reports whether it got through, and leaves only public keys holding their values |
| Documents.CopyOne | dark/document.py:96-98 | copying one more entry keeps every attribute a copy of the data |
| Documents.Document.constructor | dark/document.py:67-75 | a document keeps its pk and data, with no attributes assigned |
| Documents.Document.GetOr | dark/document.py:81 | `get(k, v)` is v for a missing key, else the value of an entry with key k |
| Documents.Document.GetItem | dark/document.py:86 | `d[key]` raises KeyError exactly when the key is missing, else gives `get(key)` |
| Documents.Document.Hash | dark/document.py:88 | the hash comes from the pk only |
| Documents.Document.AsInt | dark/document.py:89 | `int(d)` is the pk |
| Documents.Document.GetAttr | dark/document.py:93-102 | a copied attribute is read directly; the first miss copies the public keys once (an empty key raises IndexError part-way); the result is the data's value under the name, and AttributeError exactly when the name is not a key |
| Documents.EqualsByPk | dark/document.py:91-92 | equality holds iff the pks are equal, whatever the data; it is symmetric and equal documents hash alike |

## Left out

- Console and file I/O: `shell.py`, the YAML/JSON/CSV loaders, `cast_cons`, `print_table`, `summary`, `stdev`, and the `warn(...)` call in `_unwrap_value`, which is a no-op here.
- dark/discovery.py builds on an outside library and is not part of this model. dark/query.py and dark/storage/base.py are not part of this model either. The `dark` cast runs over the same query operations as `datashaping` (`where` adds an exact lookup, `values` is the sorted `values_for`).
- Values.Value: field values have no float case and no `datetime.datetime` case, only integers and dates. So the model does not capture `1 == 1.0` sharing one index value and one posting list, float lookups and their ordering among integers, or a datetime unwrapped like a date and compared with a date after `.date()` (dark/storage/memory.py:285-299, 325-346).
- Python 2's mixed-type ordering is replaced by one fixed strict total order (`Values.Less`). The TypeError that comparing a date with a non-date raises is not modelled, and neither is `True == 1`.
- Set and dict iteration order is unspecified in the source. A `find_ids` result set is enumerated in ascending order. `kw.items()` in `find` and `order_by.items()` are taken in a fixed order, and no property depends on it.
- Find.ParseDate: `datetime.strptime` is modelled narrowly, accepting exactly `YYYY-MM-DD` with two-digit month and day for a valid calendar date; other formats are not modelled.
- Aggregates.Calc: values are integers and results exact rationals. Float division and the `Decimal(...).quantize` of `dark` are not modelled. Neither is `Max` returning `str(max(values))` before that conversion.
- Aggregates.Calc: Qu1 and Qu3 are computed by the intended rule, sorting before slicing (`Aggregates.QuartilesOrdered`). The `datashaping` code slices before sorting, which is the Finding shown by `Aggregates.QuartilesAsWrittenCrossed`; that result is not what `Calc` returns.
- CastingDb.MatchOne: tests `!=` with the intended negation of `==` (`CastingDb.Ne`). As written, an `in_` value has no `__ne__`, so an `in_` lookup matches no item (the Finding shown by `CastingDb.InLookupNeverMatches`); the members below inherit the intended comparison.
- CastingDb.MatchingIds: the ids under the intended comparison; as written an `in_` lookup yields nothing.
- CastingDb.ScanLookups: the scan tests `CastingDb.Ne`, not the as-written `!=`, so it yields the items an `in_` lookup holds for.
- CastingDb.MatchingOn: built on the intended `MatchOne`; the as-written `in_` behaviour is not stated.
- CastingDb.Narrow: built on the intended `MatchOne`; the as-written `in_` behaviour is not stated.
- CastingDb.IntersectStep: built on the intended `MatchOne`; the as-written `in_` behaviour is not stated.
- CastingDb.IntersectLookups: the intersection is stated under the intended comparison; as written an `in_` lookup empties it.
- CastingDb.LookupIds: under the intended comparison `find(k=in_([1]))` over `[{k: 1}]` gives `[0]`; as written it gives nothing.
- CastingDb.Dataset.IdsByLookups: yields the items an `in_` lookup holds for, which the code as written never yields.
- CastingDb.Query.Values: the values range over the items matched under the intended comparison.
- CastingDb.Query.Prepare: the iterator or cache holds the intended matches, not the as-written ones for an `in_` lookup.
- CastingDb.Query.ToList: lists the items an `in_` lookup holds for, which the code as written never lists.
- CastingDb.Query.Count: counts the items an `in_` lookup holds for, which the code as written never counts.
- Iterators.CachedIterator.ToList: runs the intended `_to_list` (`Iterators.ToListOf`). As written, once an empty source has been dropped, `_to_list` iterates None and raises TypeError (the Finding shown by `Iterators.EmptyExhaustedToList`); the method returns `[]` there.
- Iterators.CachedIterator.Length: with the intended `_to_list`, `len()` is 0 where the code as written raises TypeError after an empty source is exhausted.
- ShapingDb.Query.Prepare: walks a copy of the memoised ids, the intended half of the Finding shown by `ShapingDb.OrderingConsumesIds`; as written the ordering walk pops them from `_ids`.
- ShapingDb.Query.Count: "the same on every call" holds for the intended walk; as written `len(query)` drops after an ordered iteration (`ShapingDb.OrderingConsumesIds`).
- Pivot.Cast: the single aggregate argument of the `datacasting` cast is modelled as a one-element aggregate list. The shared mutable default `factor_names` is modelled by the heading being built onto the list passed in.
- Pivot.Cast: requires every entry of the factor-name list to be a name. A second `datacasting` cast that relies on the shared default `factor_names=[]` after one with pivot columns (datacasting/cast.py:353, 427-429) finds raw pivot level values there. The source then takes a string value as a factor name, and for any other value `find(**{key: value})` raises TypeError (datacasting/cast.py:316). Neither outcome is modelled.
- CastingPivot.CastingOps: the builder's `values` is total. The TypeError that `val_to_id.setdefault(value, [])` raises for a dict or nested-list value (datacasting/db.py:258, stated by `CastingDb.Query.Values`) is not modelled in the oldest builder, so there `add_levels` and the pivot pass never raise it.
- Iterators.CachedIterator.constructor: requires a positive chunk size, which every caller in the repository passes. With `chunk_size=0` the source accepts the call, but then iteration never ends, because each fill reads nothing and the source is never dropped, and indexing past the cache raises IndexError even while the source has items. Neither behaviour is modelled.
- The commented-out and string-literal `group_by` and annotation blocks are dead code and are not modelled.
- `Level.__repr__`, `__unicode__` and `__str__`, the `repr` of queries and lazy calculations, and `NA.__str__` only format output.
- The module doctest of datacasting/iterator_cached.py passes the source positionally. The model follows the code, which takes the source only as the keyword `iterable`.
- Python identity tests (`is 'exact'`, `is NA.reject`) are modelled as equality.
- Document attribute copying is modelled on values (the attribute map before and after), not as Python attribute objects.
- The `if __debug__: print` in `_remove_index_for_item` (dark/storage/memory.py:266) only writes to the console and is not modelled.
- DarkMemory.MemoryCollection.RemoveIndexForItem: runs the intended removal step (`Index.RemovePosting`), so the ValueError that the code as written raises for a stale or negative-pk posting (`Index.RemovePostingAsWritten`, `Index.RemovePostingStaleRaises`) is not raised by the collection; it is a Finding below.
- DarkMemory.DeleteStep: uses the intended removal step, so it never raises the ValueError of the code as written; only AttributeError on an item already None.
- DarkMemory.MemoryCollection.DeleteOne: follows `DeleteStep`, with the intended removal step and no ValueError.
- DarkMemory.DeleteRunFails: states the errors of the deletion run with the intended removal step; the ValueError of the code as written, for a stale index or a negative pk whose item holds pairs, is left out.
- CastingDb.Dataset.RebuildIndex: after a TypeError the partly built index the code leaves behind is not stated, only the error.
- CastingDb.Dataset.constructor: requires values that can all be posted; `CastingDb.Dataset.Create` models the call that raises TypeError otherwise.

## Findings

| source | as written | input that shows it | evidently intended | confidence | as-written member | corrected member |
|---|---|---|---|---|---|---|
| datashaping/aggregates.py:162-171 | Qu1 and Qu3 slice the values before sorting them | values 4, 3, 2, 1: Qu1 = 4, Qu3 = 1 | slice the sorted values, as dark/aggregates.py:189-202 does, so Qu1 <= Qu3 | not executed | Aggregates.QuartilesAsWrittenCrossed | Aggregates.QuartilesOrdered |
| dark/storage/memory.py:262-268 | `except KeyError, ValueError:` catches only KeyError and binds it to the name ValueError | an index whose value is posted for position 0 only, then removing position 1's posting: `list.index` raises ValueError, which escapes | a missing posting is skipped like a missing key | not executed | Index.RemovePostingStaleRaises | Index.RemovePosting |
| datacasting/db.py:131-132 | `in_` defines `__eq__` but no `__ne__`, and `ids_by_lookups` tests `value != item[key]` at line 381 | `find(k=in_([1]))` over `[{k: 1}]` finds nothing | `!=` is the negation of `==`, as in `not_` | not executed | CastingDb.InLookupNeverMatches | CastingDb.Ne |
| datashaping/db.py:302-312 | `_order_results` pops yielded ids from the query's memoised `_ids` list | one document indexed under the ordering key: after one ordered iteration `len(query)` drops from 1 to 0 | walk a copy and leave the memoised list intact | not executed | ShapingDb.OrderingConsumesIds | ShapingDb.Query.Prepare |
| datacasting/cast.py:301-310 | `add_levels` adds no level when the query has no values, so a level without children becomes a short row | `[{a: 1}, {}]` grouped by `a` then `b`: `values('a')` holds None, but `find(a=None)` matches nothing | a None stub level, as dark/shaping.py:63-65 adds, keeps every row as wide as the heading | not executed | CastingPivot.ShortRowAsWritten | Pivot.RowsWidth |
| datacasting/db.py:151 | `__hash__` is `hash(self.idx)`, but the primary key is stored as `_idx`; `idx` resolves through `__getattr__` to an item key "idx" or raises AttributeError | `cast(query)` with the default `Count()` over `[{a: 1}, {}]`: `len(set(query))` hashes the first Document and raises AttributeError | hash by `_idx`, as `__eq__` compares, so `Count()` counts the matching items | not executed | CastingPivot.ShortDataCountRaises | CastingPivot.CountByPk |
| dark/utils/iterators.py:72-89 | `_to_list` iterates `_iter` even after `_fill_cache` set it to None | an iterator over an empty source, iterated once, then `len()`: TypeError | an exhausted source gives nothing more, so `len()` is 0 | not executed | Iterators.EmptyExhaustedToList | Iterators.ToListOf |
