# Portfolio site back end and image pipeline, modelled in Dafny

This project models the small pieces of logic behind a portfolio web site and its
serverless functions:

- **the query cache** (`netlify/functions/utils/cache.ts`): a map from string keys to
  entries that carry data, an absolute expiry timestamp and a size. It keeps a
  running `currentSize` against a 100 MB budget. Items over 10 MB are refused. A
  read of a live entry slides its expiry forward. Before an insert that would
  overflow the budget, `prune` walks the entries oldest-expiry first. It deletes
  while the entry is expired or the cache is still over budget, and stops at the
  first entry that is neither.
- **the read-through query policy** (`netlify/functions/utils/db.ts`). The cache
  key is the SQL text, a dash and `JSON.stringify(params)`. A truthy cached value
  is returned without calling the database. Rows from a query slower than 50 ms
  are written back to the cache.
- **request validation** (`netlify/functions/middleware/validate.ts`): the
  `required`, `email`, `minLength` and `maxLength` validators, and the
  `validateBody` wrapper. For a POST, the wrapper runs every rule against the
  parsed body, in rule order. Failures give a 400 response listing
  `Invalid <field>`. A body that does not parse, a field read of `null`, and a
  validator that throws (such as `email` on an object with its own `toString`
  field) all give a 400 "Invalid request body". The length validators compare
  `value?.length` after JavaScript's conversion to a number, so a `length` field
  holding the string `"12"` counts as 12.
- **the metrics buffer of the logger** (`netlify/functions/utils/logger.ts`): a
  list capped at 1000 entries that drops its oldest entry on overflow, the
  filtering, slicing and newest-first sorting of `getMetrics`, and the average
  of `getAverageMetric`.
- **the client-side cleanup registry** (`src/utils/cleanup.ts`): tasks stored by
  id, run and removed one at a time, by the `inactive:` prefix, or all at once.
  `init` registers the window listeners once.
- **the responsive image helpers** (`src/components/common/OptimizedImage.tsx`):
  `parsePath`, the `srcset` string of six candidates, and the SVG placeholder.
- **the build-time image script** (`scripts/optimize-images.js`): which files it
  treats as source images, the seven output names it writes for each one, and
  the files it deletes as duplicates.

Stateful objects are Dafny classes: `QueryCache`, `Logger` and `CleanupManager`.
Each class has a `State()` function. Each method's postcondition ties the new
state to a pure step function of the old state (`SetStep`, `Added`,
`ExecuteStep`, …). The properties the code promises are proved as lemmas about
those step functions. The loops of the source stay loops:
- `prune` and `executeInactiveCleanup` walk a snapshot of the entries;
- `validateBody` collects errors one rule at a time.

Their invariants tie each partial walk to the step function. JavaScript's `Map`
keeps insertion order. It is modelled by `OrderedMaps.OrderedMap`: a sequence of
distinct keys plus a map. A JavaScript stable sort is an insertion sort by an
integer key (`Sequences.SortBy`), proved sorted, a permutation, and stable.

Where the code differs from its own comments (such as `// 100MB max cache size` at
`netlify/functions/utils/cache.ts:10`, which the code does not enforce as a hard
bound) or from what a reader would expect, the model follows the code:

- An entry expires when `now > timestamp`, strictly. At `now == timestamp`, `get`
  still returns it, and `prune` keeps it unless the cache is over budget.
- A TTL of `0` or no TTL means the default of five minutes (`ttl || this.TTL`).
  A zero TTL therefore does not make an entry unreadable. A negative TTL does.
- `set` subtracts the old entry's size before the oversize check. Re-setting an
  existing key with an oversized value leaves the entries as they were but lowers
  `currentSize` (`Cache.OversizedReplaceDrifts`).
- `prune` sorts and walks every entry, not only live ones. It can delete the
  entry being replaced, whose size `set` has already subtracted. That size is
  then subtracted twice (`Cache.ExpiredReplaceSubtractsTwice`,
  `Cache.ReplacedEntryPrunedTwice`).
- The budget is not an upper bound. Pruning stops at the first fresh entry once
  the cache is within budget, and the insert then adds its size on top
  (`Cache.BudgetCanBeExceeded`). What does hold is `Cache.SetBounded`:
  `currentSize` stays within the budget plus one maximal item.
- In the image script, the duplicate filter runs on the original directory
  listing. It matches every file that starts with the image's stem and has no
  size suffix. This includes other source images that share the stem, such as
  `logo-dark.png` when `logo.png` is processed (`OptimizeImages.SiblingImageDeleted`).
  Reading the code (it is not modelled as running), such a sibling is also in
  `imageFiles` (`OptimizeImages.SampleNamesAreSources`), so the listing order decides
  what follows. If the sibling comes later, the loop reaches a deleted file, the
  `sharp(filePath)` read at `scripts/optimize-images.js:27-29` fails, and the `catch` at
  `:60-62` exits with status 1 before any later image is processed. If it comes
  earlier, its resized outputs are already written and only its source file is lost.

## Model

| member | source | states |
|---|---|---|
| OrderedMaps.Empty | netlify/functions/utils/cache.ts:8 | a new `Map` is well formed and has no entries |
| OrderedMaps.Set | netlify/functions/utils/cache.ts:55-59 | `Map.set` keeps keys distinct and yields exactly the old entries with the key bound to the new value; an existing key keeps its place in insertion order and a new key goes last |
| OrderedMaps.Delete | netlify/functions/utils/cache.ts:28 | `Map.delete` yields exactly the old entries minus the key, the other keys keeping their order, and is the identity on an absent key |
| OrderedMaps.DeleteKeys | src/utils/cleanup.ts:36 | deleting a key removes exactly that key from the insertion order and keeps the others distinct and in order |
| OrderedMaps.Entries | netlify/functions/utils/cache.ts:20 | `Array.from(map.entries())` lists every key once, in insertion order, with its value |
| OrderedMaps.EntriesHaveDifferentKeys | netlify/functions/utils/cache.ts:20 | no two entries of the snapshot share a key |
| OrderedMaps.SizeIsKeyCount | netlify/functions/utils/cache.ts:95 | `map.size` equals the number of keys in insertion order |
| Sequences.Filter | netlify/functions/utils/logger.ts:74 | `Array.prototype.filter` keeps only elements satisfying the predicate, drawn from the input |
| Sequences.FilterMember | netlify/functions/utils/logger.ts:74 | an element is in the filtered array exactly when it is in the input and satisfies the predicate |
| Sequences.FilterAppend | netlify/functions/utils/logger.ts:74 | filtering a concatenation is the concatenation of the filtered parts |
| Sequences.SortByCorrect | netlify/functions/utils/cache.ts:23 | the stable sort returns a sorted permutation of its input |
| Sequences.SortByStable | netlify/functions/utils/logger.ts:83 | the stable sort keeps the relative order of elements with equal keys |
| Sequences.SortByPairwise | netlify/functions/utils/cache.ts:23 | sorting preserves any symmetric pairwise relation between elements (used for distinct keys) |
| Sequences.InsertBySorted | netlify/functions/utils/cache.ts:23 | inserting into a sorted sequence keeps it sorted |
| Sequences.InsertByMultiset | netlify/functions/utils/cache.ts:23 | inserting adds exactly one copy of the element |
| Sequences.InsertByStable | netlify/functions/utils/logger.ts:83 | the inserted element goes after every element with the same key |
| Strings.LastIndexOf | src/components/common/OptimizedImage.tsx:48 | `lastIndexOf` is -1 exactly when the character is absent, and otherwise the position of its last occurrence |
| Strings.LastIndexOfUnique | src/components/common/OptimizedImage.tsx:52 | an occurrence with no later occurrence is the one `lastIndexOf` returns |
| Strings.NatToStringValue | src/components/common/OptimizedImage.tsx:62 | the decimal text of a number reads back as that number |
| Strings.NatToStringPrefixFree | src/components/common/OptimizedImage.tsx:62 | decimal text followed by a non-digit determines the number and what follows |
| Strings.IntToStringPrefixFree | netlify/functions/utils/db.ts:59 | `String(n)` of an integer followed by a non-digit determines the integer and what follows |
| Strings.NatToString | src/components/common/OptimizedImage.tsx:62 | the decimal text of a number is a non-empty string of digits |
| Strings.IntToString | netlify/functions/utils/db.ts:59 | `String(n)` is non-empty and starts with `-` exactly when `n` is negative |
| Strings.JoinAppend | src/components/common/OptimizedImage.tsx:44 | joining a concatenation is joining each part, separated by the separator |
| Cache.TotalSizeAfterSet | netlify/functions/utils/cache.ts:55-61 | storing an item changes the true total by its size minus the size of the entry it replaces, if any |
| Cache.EffectiveTtl | netlify/functions/utils/cache.ts:57 | `ttl \|\| this.TTL` is never zero: a non-zero TTL is used as given |
| Cache.TotalSizeAfterDelete | netlify/functions/utils/cache.ts:28-29 | deleting a key lowers the true total by that entry's size, if present |
| Cache.GetStep | netlify/functions/utils/cache.ts:64-77 | a missing key gives null and no change; an expired entry is deleted, the other keys keeping their order, and its size subtracted; a live entry is returned and its expiry moved to `now + TTL`, in place |
| Cache.InvalidateStep | netlify/functions/utils/cache.ts:79-85 | a present entry is removed, the other keys keeping their order, and its size subtracted; an absent key changes nothing |
| Cache.ClearStep | netlify/functions/utils/cache.ts:87-90 | no entries and a size of zero |
| Cache.Stats | netlify/functions/utils/cache.ts:92-97 | `getStats` reports `currentSize` and the number of keys in the map |
| Cache.Snapshot | netlify/functions/utils/cache.ts:20-23 | the snapshot `prune` walks holds every entry once and is in ascending timestamp order |
| Cache.DeleteEntry | netlify/functions/utils/cache.ts:28-29 | one deletion of `prune`: the key is gone, the other keys keep their order, and its size is subtracted |
| Cache.PruneVisit | netlify/functions/utils/cache.ts:26-33 | one iteration of the loop: delete and go on when the entry is expired or the cache is over budget, otherwise stop |
| Cache.PruneStep | netlify/functions/utils/cache.ts:18-34 | `prune` keeps the entries well formed: distinct keys in insertion order |
| Cache.PruneKeepsLive | netlify/functions/utils/cache.ts:18-34 | every entry `prune` keeps was present before, unchanged, and not expired |
| Cache.PruneEmptiesOrFits | netlify/functions/utils/cache.ts:18-34 | after `prune` the cache is empty or within the budget |
| Cache.PruneWalkSubset | netlify/functions/utils/cache.ts:26-33 | the walk only deletes: every remaining entry was there, unchanged |
| Cache.PruneWalkPrefix | netlify/functions/utils/cache.ts:26-33 | the walk deletes the keys of a prefix of the sorted entries |
| Cache.PruneWalkStop | netlify/functions/utils/cache.ts:27-31 | when the walk stops early, the entry it stops at is unexpired and the cache is within budget |
| Cache.PruneLeavesFresh | netlify/functions/utils/cache.ts:18-34 | after `prune` every remaining entry is unchanged and unexpired, and the cache is either empty or within budget |
| Cache.PruneKeyIsLive | netlify/functions/utils/cache.ts:23-31 | a key `prune` keeps is not expired, because the walk is in timestamp order |
| Cache.SnapshotOrdered | netlify/functions/utils/cache.ts:23 | the snapshot `prune` walks is in ascending timestamp order |
| Cache.SnapshotHas | netlify/functions/utils/cache.ts:20 | every stored entry appears in the sorted snapshot |
| Cache.PruneKeepsDrift | netlify/functions/utils/cache.ts:28-29 | `prune` subtracts exactly the sizes of what it deletes, so the gap between `currentSize` and the true total is unchanged |
| Cache.MakeRoom | netlify/functions/utils/cache.ts:50-53 | `set` prunes only when the new size would overflow the budget, and pruning keeps only unexpired entries, unchanged |
| Cache.SetStep | netlify/functions/utils/cache.ts:36-62 | an oversized item leaves the entries as they were with the old size subtracted; otherwise the key holds the new item expiring at `now + (ttl or TTL)`, every other surviving entry is unchanged, and without pruning the rest of the map and the size are exactly updated; an existing key keeps its place in insertion order and a new key goes last |
| Cache.SetStages | netlify/functions/utils/cache.ts:38-61 | `set` is subtract-old-size, then refuse oversized items, then prune if needed, then store and add the size |
| Cache.GetInvalidateKeepDrift | netlify/functions/utils/cache.ts:64-85 | `get` and `invalidate` keep `currentSize` in step with the entries |
| Cache.SetDrift | netlify/functions/utils/cache.ts:36-62 | `set` keeps `currentSize` in step except that it loses the old entry's size when the old entry does not survive |
| Cache.SetFreshKeyConsistent | netlify/functions/utils/cache.ts:36-62 | `set` of a new key keeps `currentSize` equal to the sum of the entry sizes |
| Cache.SetReplaceConsistent | netlify/functions/utils/cache.ts:36-62 | replacing a key without pruning keeps `currentSize` equal to the sum of the entry sizes |
| Cache.OversizedReplaceDrifts | netlify/functions/utils/cache.ts:38-48 | an oversized value for an existing key leaves the entries as they were but makes `currentSize` undercount by the old size |
| Cache.ExpiredReplaceSubtractsTwice | netlify/functions/utils/cache.ts:38-53 | when `set` prunes and the old entry for the key is expired, its size is subtracted a second time |
| Cache.TwoEntryStore | netlify/functions/utils/cache.ts:51 | a consistent store over budget whose entry `a` has expired |
| Cache.ReplacedEntryPrunedTwice | netlify/functions/utils/cache.ts:38-61 | re-setting `a` in that store leaves `currentSize` 10 below the real total |
| Cache.SetBounded | netlify/functions/utils/cache.ts:46-61 | `set` preserves the invariant that `currentSize` does not overcount and stays within the budget plus one maximal item |
| Cache.BudgetCanBeExceeded | netlify/functions/utils/cache.ts:51-61 | a consistent cache can end above the 100 MB budget after a `set` |
| Cache.SetThenGet | netlify/functions/utils/cache.ts:55-76 | after a `set` of an admissible item, `get` returns it until `now + (ttl or TTL)` and not after |
| Cache.SlidingExpiry | netlify/functions/utils/cache.ts:74-76 | a hit keeps the entry readable for another full default TTL |
| Cache.InvalidateIdempotent | netlify/functions/utils/cache.ts:79-85 | invalidating twice is invalidating once |
| Cache.ClearEmpties | netlify/functions/utils/cache.ts:87-97 | after `clear` the stats are zero and every `get` misses |
| Cache.QueryCache.constructor | netlify/functions/utils/cache.ts:7-11 | an empty cache with size zero |
| Cache.QueryCache.Prune | netlify/functions/utils/cache.ts:18-34 | the loop over the sorted snapshot leaves exactly the state of the walk |
| Cache.QueryCache.Evict | netlify/functions/utils/cache.ts:28-29 | the loop body deletes the entry and subtracts its size |
| Cache.QueryCache.Set | netlify/functions/utils/cache.ts:36-62 | the new state is `SetStep` with the size given by the cache's size function |
| Cache.QueryCache.Get | netlify/functions/utils/cache.ts:64-77 | the result and new state are those of `GetStep` |
| Cache.QueryCache.Invalidate | netlify/functions/utils/cache.ts:79-85 | the new state is that of `InvalidateStep` |
| Cache.QueryCache.Clear | netlify/functions/utils/cache.ts:87-90 | the new state is empty with size zero |
| Cache.QueryCache.GetStats | netlify/functions/utils/cache.ts:92-97 | returns `currentSize` and the number of stored keys |
| Json.ElementJson | netlify/functions/utils/db.ts:59 | every serialised parameter is non-empty text |
| Json.Canonical | netlify/functions/utils/db.ts:59 | serialisation turns `undefined` into `null` and keeps the length of the list |
| Json.HexDigit | netlify/functions/utils/db.ts:59 | the lowercase hex digit of a `\u00xx` escape reads back as its value |
| Json.EscapeChar | netlify/functions/utils/db.ts:59 | a character's escape in a string literal is non-empty and never starts with a quote |
| Json.DecodeEscapedChar | netlify/functions/utils/db.ts:59 | every escaped character decodes back to itself, consuming exactly its escape |
| Json.ParamsJson | netlify/functions/utils/db.ts:59 | `JSON.stringify(params)` is an array literal, `[]` exactly for no parameters |
| Json.ReadEscaped | netlify/functions/utils/db.ts:59 | the body of a quoted string reads back as the original string |
| Json.ReadElementJson | netlify/functions/utils/db.ts:59 | each serialised parameter reads back as itself, `undefined` as `null` |
| Json.ReadElementsJson | netlify/functions/utils/db.ts:59 | the comma-separated elements read back as the canonical parameters |
| Json.ReadParamsJson | netlify/functions/utils/db.ts:59 | `JSON.stringify(params)` reads back as the parameters with `undefined` turned into `null` |
| Json.ParamsJsonCanonical | netlify/functions/utils/db.ts:59 | `undefined` and `null` parameters serialise alike |
| Json.ParamsJsonInjective | netlify/functions/utils/db.ts:59 | two parameter lists serialise alike exactly when they agree up to `undefined` versus `null` |
| Db.GenerateCacheKey | netlify/functions/utils/db.ts:58-60 | the key is the SQL text, a dash and the serialised parameters, and ends in `]` |
| Db.EmptyParamsKey | netlify/functions/utils/db.ts:58-60 | a query without parameters is keyed by its SQL text and `-[]` |
| Db.MessagesListKeyMatches | netlify/functions/messages.ts:95 | the key the insert path invalidates is the key of the list query |
| Db.QueryKeyIsNotEtagKey | netlify/functions/messages.ts:42 | no query result can be stored under the ETag's key |
| Db.KeyDeterminesParams | netlify/functions/utils/db.ts:58-60 | for one SQL text, two keys are equal exactly when the parameters agree up to `undefined` versus `null` |
| Db.Consulted | netlify/functions/utils/db.ts:74-75 | the cache after the optional read stays well formed |
| Db.QueryStep | netlify/functions/utils/db.ts:62-103 | the database is skipped exactly on a truthy cache hit, which is returned; otherwise its rows are returned or its error re-thrown; a failure writes nothing; rows are written back exactly when caching is on and the query took over 50 ms, stamped at the time the query finished |
| Db.ReadThrough | netlify/functions/utils/db.ts:74-96 | rows written back by a slow query are served to the next reading query within the TTL without calling the database |
| Db.ForceRefreshStillWrites | netlify/functions/utils/db.ts:74-96 | `forceRefresh` skips the read but still writes the fresh rows back |
| Db.ListQueryMissesAfterInvalidate | netlify/functions/messages.ts:51-55 | after the insert path's invalidation, the next list query goes to the database |
| Db.Query | netlify/functions/utils/db.ts:62-103 | the result, the new cache state and whether the database was called are those of `QueryStep` |
| Validate.ToJsString | netlify/functions/middleware/validate.ts:64 | `String(value)` gives a string unchanged; it throws only on an array or an object, and on an object exactly when the object has its own `toString` field |
| Validate.StringToNumber | netlify/functions/middleware/validate.ts:65-66 | the empty string converts to 0 and a string of decimal digits to its value |
| Validate.ToNumber | netlify/functions/middleware/validate.ts:65-66 | the conversion before `>=` and `<=` leaves a number as it is and throws exactly when `String(value)` throws |
| Validate.Required | netlify/functions/middleware/validate.ts:63 | `undefined`, `null` and `""` fail; every other string and every other value, `0` and `false` included, passes |
| Validate.Lookup | netlify/functions/middleware/validate.ts:26 | `body[field]` throws exactly when the body is `null` or `undefined`; an object gives its own field or `undefined`; an array or a string gives its length under `length` |
| Validate.ArrayIndexLookup | netlify/functions/middleware/validate.ts:26 | an element of an array body is read under its index written in decimal |
| Validate.EmailString | netlify/functions/middleware/validate.ts:64 | the executable email test holds exactly when the string matches `^[^\s@]+@[^\s@]+\.[^\s@]+$` |
| Validate.EmailAtIsPattern | netlify/functions/middleware/validate.ts:64 | the test at the last `@` is equivalent to the regular expression |
| Validate.PatternAtIsLast | netlify/functions/middleware/validate.ts:64 | in a match of the regular expression, the `@` is the last one in the string |
| Validate.PatternGivesEmailAt | netlify/functions/middleware/validate.ts:64 | a match of the regular expression has its `@` at the last `@` and passes the test there |
| Validate.EmailAtGivesPattern | netlify/functions/middleware/validate.ts:64 | passing the test at the last `@` gives a match of the regular expression |
| Validate.Email | netlify/functions/middleware/validate.ts:64 | `email` throws exactly when `String(value)` throws, and otherwise passes exactly when that text matches the regular expression |
| Validate.MinLength | netlify/functions/middleware/validate.ts:65 | on a string or an array, `minLength` compares its length; on a number, a boolean, `null` or `undefined` it fails; only an object can make it throw |
| Validate.MaxLength | netlify/functions/middleware/validate.ts:66 | on a string or an array, `maxLength` compares its length; on a number, a boolean, `null` or `undefined` it fails; only an object can make it throw |
| Validate.ValidatorsOnUndefined | netlify/functions/middleware/validate.ts:62-67 | no validator accepts a missing field, and none throws on it |
| Validate.ValidatorsOnStrings | netlify/functions/middleware/validate.ts:63-66 | on strings, `minLength`/`maxLength` compare the length and `required` rejects only the empty string; `0` is required-valid |
| Validate.LengthFieldConverted | netlify/functions/middleware/validate.ts:65-66 | a `length` field that is a digit string counts as its value, `true` as 1 and `null` as 0 |
| Validate.EmailThrowsOnToStringField | netlify/functions/middleware/validate.ts:64 | an object with its own `toString` field makes `email` throw |
| Validate.ErrorsOf | netlify/functions/middleware/validate.ts:25-29 | the error list is absent exactly when some rule throws, by reading a field of `null` or `undefined` or by its validator throwing; otherwise it has at most one error per rule |
| Validate.ErrorsOfSnoc | netlify/functions/middleware/validate.ts:25-29 | one more rule whose validator answers adds its `Invalid <field>` exactly when the answer is false |
| Validate.Messages | netlify/functions/middleware/validate.ts:27 | one `Invalid <field>` message per rule, in order |
| Validate.ErrorsAreFailingRules | netlify/functions/middleware/validate.ts:25-29 | when no rule throws, the errors are the messages of exactly the failing rules, in rule order |
| Validate.AllPassNoErrors | netlify/functions/middleware/validate.ts:25-31 | when every validator answers true there is no error |
| Validate.NoErrorsAllPass | netlify/functions/middleware/validate.ts:25-31 | an empty error list means every validator answered true |
| Validate.NoErrorsIffAllPass | netlify/functions/middleware/validate.ts:25-31 | there are no errors exactly when every validator answers true, so never when one throws |
| Validate.CollectErrors | netlify/functions/middleware/validate.ts:23-29 | the `forEach` loop builds exactly the error list of the rules, and stops at the first rule that throws |
| Validate.Validated | netlify/functions/middleware/validate.ts:7-60 | non-POST requests always reach the handler; a POST reaches it exactly when the body parses and every rule passes; a failing POST gets the 400 error list; a POST whose parse, field read or validator throws, or whose handler throws, gets "Invalid request body"; only a non-POST handler's exception escapes; a handler returning nothing yields the 200 success body |
| Validate.ValidateBody | netlify/functions/middleware/validate.ts:7-60 | the response and whether the handler ran are those of `Validated` |
| Validate.EmptyMessageBodyFailsAll | netlify/functions/messages.ts:24-28 | an empty POST body fails all three message rules, in field order |
| Validate.SampleAddressIsEmail | netlify/functions/middleware/validate.ts:64 | `ada@example.com` passes the email test |
| Validate.MessageRulesOnStrings | netlify/functions/messages.ts:24-28 | on strings, the message rules answer non-empty name, non-empty valid email, and a message of at least 10 characters, and never throw |
| Validate.MessageBody | netlify/functions/messages.ts:87 | a message body holds its three fields |
| Validate.WellFormedMessagePasses | netlify/functions/messages.ts:24-28 | a non-empty name, a valid email and a 10-character message pass every rule |
| Validate.ThrowingEmailIsInvalidBody | netlify/functions/middleware/validate.ts:21-57 | a message POST whose email is an object with its own `toString` field gets "Invalid request body" and the handler is not called |
| Validate.StringLengthFieldPassesMessage | netlify/functions/messages.ts:24-28 | a message field that is an object whose `length` is the string `"12"` passes `minLength(10)` |
| Logging.Last | netlify/functions/utils/logger.ts:82 | the last `n` elements, in order |
| Logging.Added | netlify/functions/utils/logger.ts:51-55 | the new metric is last; below the cap nothing is dropped; at the cap exactly the oldest metric is dropped; the cap is never exceeded |
| Logging.AddedKeepsWindow | netlify/functions/utils/logger.ts:51-55 | the buffer is always the last 1000 metrics ever added |
| Logging.FilteredMembers | netlify/functions/utils/logger.ts:71-79 | the name and `minDuration` filters keep exactly the stored metrics that pass both |
| Logging.Filtered | netlify/functions/utils/logger.ts:71-79 | the filtered metrics are stored metrics passing the name and `minDuration` filters, and no more than are stored |
| Logging.Slice | netlify/functions/utils/logger.ts:82 | `slice(start)` with a negative start is the last `-start` elements, and with a non-negative start the elements from `start` on |
| Logging.Selected | netlify/functions/utils/logger.ts:66-84 | `getMetrics` returns a reordering of the slice of the matching metrics |
| Logging.SelectedPass | netlify/functions/utils/logger.ts:73-79 | every returned metric passes the filters |
| Logging.SelectedLast | netlify/functions/utils/logger.ts:82 | with a positive limit the result holds the newest `limit` matching metrics, and no more |
| Logging.SelectedSkips | netlify/functions/utils/logger.ts:82 | a negative limit drops that many of the oldest matching metrics instead |
| Logging.SelectedFillsLimit | netlify/functions/utils/logger.ts:82 | with enough matching metrics, exactly `limit` are returned |
| Logging.SelectedNewestFirst | netlify/functions/utils/logger.ts:83 | the result is in descending timestamp order and keeps the buffer order among equal timestamps |
| Logging.SortNewestFirst | netlify/functions/utils/logger.ts:83 | the stable sort by descending timestamp orders and keeps ties in place |
| Logging.Average | netlify/functions/utils/logger.ts:86-92 | the average is `null` exactly when no stored metric has the name |
| Logging.NoneNamed | netlify/functions/utils/logger.ts:87-88 | the filter is empty exactly when no stored metric has the name |
| Logging.SumBounds | netlify/functions/utils/logger.ts:90 | the sum of durations lies between the count times the least and the count times the greatest |
| Logging.AverageBetween | netlify/functions/utils/logger.ts:86-92 | the average lies between the least and the greatest duration of the named metrics |
| Logging.Logger.constructor | netlify/functions/utils/logger.ts:8-10 | an empty buffer |
| Logging.Logger.AddMetric | netlify/functions/utils/logger.ts:51-55 | the buffer becomes `Added(old buffer, metric)` and stays the last 1000 metrics recorded |
| Logging.Logger.EndTimer | netlify/functions/utils/logger.ts:40-49 | the duration is end minus start, and a metric with it and the clock reading is added |
| Logging.Logger.GetMetrics | netlify/functions/utils/logger.ts:66-84 | returns `Selected` of the buffer |
| Logging.Logger.GetAverageMetric | netlify/functions/utils/logger.ts:86-92 | returns `Average` of the buffer |
| Logging.Logger.ClearMetrics | netlify/functions/utils/logger.ts:94-96 | the buffer is empty |
| Cleanup.Fresh | src/utils/cleanup.ts:7-10 | no tasks, nothing run, not initialised |
| Cleanup.InitStep | src/utils/cleanup.ts:12-26 | the first `init` adds the unload and visibility listeners and sets the flag; later calls change nothing |
| Cleanup.InitOnce | src/utils/cleanup.ts:12-26 | however many times `init` is called, the two listeners are registered once |
| Cleanup.InitIdempotent | src/utils/cleanup.ts:13 | a second `init` changes nothing |
| Cleanup.RegisterStep | src/utils/cleanup.ts:28-30 | the id is bound to the new task; other ids keep theirs; an existing id keeps its place and a new id goes last; nothing runs and the `init` flag and listeners are unchanged |
| Cleanup.ExecuteStep | src/utils/cleanup.ts:32-38 | a registered task runs once and is removed, the other ids keep their order and tasks, and the `init` flag and listeners are unchanged; an unknown id changes nothing |
| Cleanup.ExecuteTwice | src/utils/cleanup.ts:32-38 | executing an id twice is executing it once |
| Cleanup.RegisterThenExecute | src/utils/cleanup.ts:28-38 | executing a just-registered id runs exactly the new task and removes the id |
| Cleanup.WalkVisit | src/utils/cleanup.ts:42-47 | one callback of the `forEach`: an `inactive:` id runs and is deleted, any other id is skipped |
| Cleanup.InactiveWalk | src/utils/cleanup.ts:42-47 | the walk only deletes tasks, deletes every `inactive:` id it visits, and leaves the `init` flag and listeners alone |
| Cleanup.ExecuteInactiveStep | src/utils/cleanup.ts:40-48 | `executeInactiveCleanup` keeps the registry well formed |
| Cleanup.Callbacks | src/utils/cleanup.ts:42-51 | the cleanup tasks of the given ids, in that order |
| Cleanup.InactiveWalkKeeps | src/utils/cleanup.ts:40-48 | the walk removes exactly the `inactive:` ids it visits and leaves every other task unchanged |
| Cleanup.InactiveWalkRuns | src/utils/cleanup.ts:40-48 | the walk runs the cleanup tasks of the `inactive:` ids, in registration order |
| Cleanup.RunsStep | src/utils/cleanup.ts:43-46 | one visit appends the visited task to the run log exactly when its id is inactive |
| Cleanup.RunsStepInactive | src/utils/cleanup.ts:43-46 | running an inactive task appends it to the run log ahead of the cleanup tasks still to be visited |
| Cleanup.ExecuteInactiveEffect | src/utils/cleanup.ts:40-48 | `executeInactiveCleanup` keeps exactly the cleanup tasks without the prefix, unchanged and in their registration order, runs the others in registration order, and leaves the `init` flag and listeners alone |
| Cleanup.InactiveWalkOrder | src/utils/cleanup.ts:42-47 | after the walk over the last ids of the registry, the ids before them stay in place, followed by the active ids among them in registration order |
| Cleanup.VisitOrder | src/utils/cleanup.ts:43-46 | one visit moves an active id to the kept ids and deletes an inactive one, leaving the ids still to visit after them |
| Cleanup.ClearAllStep | src/utils/cleanup.ts:50-53 | every task runs once, in registration order, the registry is empty, and the `init` flag and listeners are unchanged |
| Cleanup.CleanupManager.constructor | src/utils/cleanup.ts:7-10 | the state of a new manager |
| Cleanup.CleanupManager.Init | src/utils/cleanup.ts:12-26 | the new state is that of `InitStep` |
| Cleanup.CleanupManager.RegisterCleanup | src/utils/cleanup.ts:28-30 | the new state is that of `RegisterStep` |
| Cleanup.CleanupManager.ExecuteCleanup | src/utils/cleanup.ts:32-38 | the new state is that of `ExecuteStep` |
| Cleanup.CleanupManager.ExecuteInactiveCleanup | src/utils/cleanup.ts:40-48 | the `forEach` over the registry leaves exactly the state of the walk |
| Cleanup.CleanupManager.VisitInactive | src/utils/cleanup.ts:42-47 | the callback runs and deletes an `inactive:` task, and leaves any other alone |
| Cleanup.CleanupManager.ClearAll | src/utils/cleanup.ts:50-53 | the new state is that of `ClearAllStep` |
| OptimizedImage.SplitExtParts | src/components/common/OptimizedImage.tsx:52-56 | the name and extension rejoin to the file name, and the extension is empty or starts at the last `.` |
| OptimizedImage.ParsePath | src/components/common/OptimizedImage.tsx:47-59 | directory, name and extension rejoin to the path; the directory is empty or ends in `/`; name and extension have no `/`; the extension is empty or starts at the last `.` |
| OptimizedImage.CutAndSplit | src/components/common/OptimizedImage.tsx:48-56 | cutting after the last `/` and before the last `.` of the rest gives such a split |
| OptimizedImage.ParsePathUnique | src/components/common/OptimizedImage.tsx:47-59 | any split with those properties is the one `parsePath` returns |
| OptimizedImage.DirUnique | src/components/common/OptimizedImage.tsx:48-49 | the cut after the last `/` is at the end of the directory part |
| OptimizedImage.ExtUnique | src/components/common/OptimizedImage.tsx:52-56 | the cut before the last `.` is at the start of the extension part |
| OptimizedImage.ParsePathLastDot | src/components/common/OptimizedImage.tsx:52-56 | `img/photo.v2.png` splits as `img/`, `photo.v2`, `.png` |
| OptimizedImage.ParsePathDotFile | src/components/common/OptimizedImage.tsx:52-56 | `a/.env` has an empty name and the extension `.env` |
| OptimizedImage.Candidates | src/components/common/OptimizedImage.tsx:40-44 | six `srcset` candidates |
| OptimizedImage.CandidatesFor | src/components/common/OptimizedImage.tsx:40-44 | for each size, the variant in the base format and then in WebP, with its width |
| OptimizedImage.GenerateSrcSet | src/components/common/OptimizedImage.tsx:34-45 | the `srcset` is the six candidates joined by `, ` |
| OptimizedImage.SrcSetExtension | src/components/common/OptimizedImage.tsx:36-41 | the first candidate keeps the path's extension, or uses `.jpg` when there is none |
| OptimizedImage.OrHundred | src/components/common/OptimizedImage.tsx:62 | `n \|\| 100` is never zero: a non-zero size is kept and an absent or zero one becomes 100 |
| OptimizedImage.BlurredPlaceholder | src/components/common/OptimizedImage.tsx:62 | a non-empty placeholder source is returned as is; otherwise the result is the inline SVG, from its fixed head to its fixed tail |
| OptimizedImage.PlaceholderDeterminesViewBox | src/components/common/OptimizedImage.tsx:62 | without a placeholder source, two placeholders are equal exactly when their view boxes are, absent or zero dimensions counting as 100 |
| OptimizedImage.SizesDelimited | src/components/common/OptimizedImage.tsx:62 | the two numbers of the view box can be read back from the SVG text |
| OptimizedImage.PlaceholderSrcWins | src/components/common/OptimizedImage.tsx:62 | a non-empty placeholder source is used as is |
| OptimizeImages.SizesMatchSrcSet | scripts/optimize-images.js:6-10 | the script's three sizes have the suffixes and widths the `srcset` asks for, in the same order |
| OptimizeImages.IsSourceImage | scripts/optimize-images.js:15-20 | a file is a source image exactly when it has a PNG or JPEG extension and holds none of the size suffixes of `SIZES` |
| OptimizeImages.ImageFiles | scripts/optimize-images.js:15-20 | every selected file is a PNG or JPEG without a size suffix |
| OptimizeImages.ImageFilesMembers | scripts/optimize-images.js:15-20 | a file is selected exactly when it is listed and is such an image |
| OptimizeImages.SampleNamesAreSources | scripts/optimize-images.js:15-20 | `logo.png` and `logo-dark.png` are both selected as source images |
| OptimizeImages.ParseName | scripts/optimize-images.js:24 | `path.parse` of a bare file name: name and extension rejoin to it, and the extension is empty or a `.` followed by no `.` |
| OptimizeImages.ParseImageName | scripts/optimize-images.js:24 | a source image `<stem><ext>` parses into that stem and extension |
| OptimizeImages.OutputNames | scripts/optimize-images.js:27-34 | the WebP copy, then for each size the resized file and its WebP version |
| OptimizeImages.SizedNames | scripts/optimize-images.js:32-34 | the two names written for each size |
| OptimizeImages.IsDuplicate | scripts/optimize-images.js:47-52 | the filter keeps the image and its full-size WebP copy, and selects only names that start with the stem and carry no size suffix |
| OptimizeImages.Duplicates | scripts/optimize-images.js:47-52 | the duplicates are filtered from the original listing, so there are at most as many as listed files |
| OptimizeImages.DuplicatesShape | scripts/optimize-images.js:47-52 | a file is deleted exactly when it is listed, starts with the stem, has no size suffix, and is neither the image nor its WebP copy |
| OptimizeImages.OutputsAreKept | scripts/optimize-images.js:27-52 | no file the script writes for an image is deleted as its duplicate |
| OptimizeImages.SizedOutputHasSuffix | scripts/optimize-images.js:32-34 | every resized output carries a size suffix |
| OptimizeImages.SiblingImageDeleted | scripts/optimize-images.js:47-56 | processing `logo.png` deletes the other source image `logo-dark.png` |
| OptimizeImages.SrcSetNamesOutputs | scripts/optimize-images.js:32-34 | for an image in a directory, each `srcset` candidate names a file the script writes, with the script's width |
| OptimizeImages.CandidatesOfImage | src/components/common/OptimizedImage.tsx:35-43 | for a source image, the candidates are built from the directory and stem and the image's own extension |

## Left out

- Clocks: `Date.now()` and `performance.now()` are parameters. One cache operation
  reads the clock once, so `prune` called from `set` uses the same `now`. `query`
  writes rows at `now + queryTime`, the clock reading when the query finished.
- `calculateSize` (the UTF-8 length of `JSON.stringify(data)`) is the size
  function given to `QueryCache`'s constructor. JSON encoding of the cached rows
  and UTF-8 are not part of this model.
- Numbers are unbounded integers. Floating-point sizes, timestamps and durations
  are not modelled, and neither are the fractional part of `MAX_CACHE_SIZE * 0.1`
  (it is whole) or `toFixed`.
- Logging.Average: the average is an exact real number, not the floating-point
  quotient.
- Logging.Logger.EndTimer: durations are integer differences of the two clock
  readings. The `startTimer` closure and the metric `metadata` are not part of this
  model.
- Console output is not modelled: the debug, info, warn and error messages, and
  the slow-operation warning of `addMetric`.
- `getPool`, `executeTransaction` and the MySQL driver are not part of this model.
  The clock reading `now` of `query` is taken as both the time of the cache read
  and the query's `startTime`. In the code `startTime` is read after
  `await getPool()`, so the model takes that wait as zero.
- Db.Query: a query is one atomic step from the cache read to the write-back. The
  awaits at `netlify/functions/utils/db.ts:82` and `:87` are not modelled as points
  where other requests run. In the code, a query already in flight when the insert
  path invalidates the list key can still write its pre-insert rows back
  afterwards. `Db.ListQueryMissesAfterInvalidate` holds only for a query that
  starts after the invalidation.
  A database call is an outcome given as a parameter: rows and the time taken, or
  an error.
- JavaScript truthiness of a cached value is a parameter of `query`.
- `JSON.parse` of a request body and the handler wrapped by `validateBody` are
  oracles given as parameters.
- Json.ReadParamsJson: query parameters are `undefined`, `null`, booleans,
  integers and strings. Fractional numbers, objects, arrays and dates are not
  modelled.
- `ToJsString` and `ToNumber` model the conversions `RegExp.test` and the
  relational operators apply to a value. Strings are sequences of characters, not
  UTF-16 code units.
- A rule reads `body[field]` as an object's own field, an array's or a string's
  index or `length`, and otherwise `undefined`. Inherited properties, such as the
  methods of arrays and strings or `Object.prototype` members of a parsed object,
  are read as `undefined`.
- Validate.StringToNumber: only the empty string and optionally signed decimal
  integers convert to numbers. Fractions, exponents, hexadecimal, binary and octal
  forms and `Infinity` are read as not-a-number here.
- Validate.ErrorsOf: the rules are a sequence given in the order `Object.entries`
  lists them. The model does not derive that order (integer-like keys first) and
  does not exclude a field that appears twice.
- The cleanup tasks are opaque values. Running one is recorded by appending it to
  a log, and the log is the observable effect. A task that registers or removes
  other tasks while running is not modelled.
- Cleanup.ExecuteStep: every task returns normally. In the code a task that
  throws stays registered, because `delete` comes after the call, and the
  exception reaches the caller.
- Cleanup.ExecuteTwice: stated for tasks that return normally. A task that throws
  stays registered and would run again on a second call.
- Cleanup.RegisterThenExecute: stated for tasks that return normally. A task that
  throws stays registered.
- Cleanup.ExecuteInactiveEffect: every task returns normally. In the code a
  throwing task ends the `forEach`: the inactive tasks visited before it are run
  and deleted, it and the later ones stay registered.
- Cleanup.ClearAllStep: every task returns normally. In the code a throwing task
  ends the `forEach`, the remaining tasks do not run and the map is not cleared.
- Cleanup.CleanupManager.Init: the DOM listeners are recorded as a list. Their
  firing (`unload`, and `visibilitychange` while `document.hidden`) calls
  `ClearAll` and `ExecuteInactiveCleanup`, which are modelled.
- `disposeImage` and the other DOM utilities of `cleanup.ts` are not part of this
  model.
- OptimizeImages.ParseName: only names without `/` are modelled. Those are the
  entries of `readdirSync`.
- The image script's file system and image effects are not modelled: `sharp`
  resizing and encoding, writing files, `unlinkSync`, and `process.exit`. The
  model states the names and sets of files. It does not model the loop's I/O
  order.
- The React state, effects and intersection observer of `OptimizedImage` are not
  part of this model.
