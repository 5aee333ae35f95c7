# Asset collection (asset-merger for Kohana), modelled in Dafny

`Kohana_Asset_Collection` groups the stylesheet or script assets of one type
(`css`, `js`, ...) under a name. It behaves as an ordered, keyed PHP array of
assets that supports `$c[] = $asset`, `$c[$key]`, `isset`, `unset`, `count`
and `foreach`. It sorts its assets by weight. It fingerprints them with
crc32b. It merges their compiled outputs into one file named
`name-fingerprint.type`, and rewrites that file only when it is stale and
copying is on.

The model:

- `ordered_maps.dfy` (module `OrderedMaps`): the PHP array `$_assets`. It is a
  value made of three parts: the entries in insertion order, the next
  automatic index, and the internal pointer. The module gives key
  normalisation (`"12"` is the key `12`), overwrite-in-place, append under the
  next automatic index (which `unset` never lowers; sorting a non-empty array
  resets it to the count, so a freed index can be used again), `unset`, `reset`/`current`/`key`/`next`, and the
  renumbered array `usort` leaves behind when the array has entries.
- `php_strings.dfy` (module `PhpStrings`): integer-to-decimal-text conversion
  (used for weights in the hash input), the reverse reading PHP applies to
  string keys, with the round trip proved both ways, and string truthiness.
- `asset_records.dfy` (module `AssetRecords`): the asset record. It holds a weight, an
  optional source file, content, an optional timestamp, and the two texts its
  own `compile(process)` yields.
- `weight_sort.dfy` (module `WeightSort`): the usort comparison closure, and a
  stand-in insertion sort driven by it. The sort is proved to return a sorted
  permutation.
- `merged_output.dfy` (module `MergedOutput`): the merged text, the hash
  haystack, and the file name, each with the laws that relate it to the
  assets.
- `timestamps.dfy` (module `Timestamps`): array_filter plus max over the
  asset timestamps.
- `files.dfy` (module `Files`): the files the collection writes. It has a
  ghost log of writes and the staleness test `is_modified_later`.
- `collection.dfy` (module `AssetCollection`): the class
  `Collection`. Its fields are `$_assets`, the destinations and the memoised
  `$_last_modified`. Its methods follow the PHP class one by one. Five
  client methods show the promised behaviour across several calls: iteration,
  memoisation, sorting an emptied array, reuse of a freed index after a sort,
  and rendering twice.

The trivial getters (`type()`, `name()`, `copy()`, `folder()`,
`destination_file()`, ...) are the class's fields. The constructor's default
arguments (`name = 'all'`, `destination_path = NULL`, `copy = TRUE`) and the
`$process = FALSE` default of `compile`, `render`, `get_webpath` and `inline`
are passed explicitly, the latter as the `process` parameter. `Assets::require_valid_type` throws on an unknown type. The model
states this in two ways: a constructor whose precondition is a valid type,
and `Create`, which returns None for an invalid type.

`$_last_modified` is cached only once some asset reports a time. While it is
NULL it is recomputed on every call, so a timed asset added later is picked
up (`Collection.LastModified`). The order of equal weights depends on the PHP
version (undefined before 8.0, the original order from 8.0), so
`Collection.Sort` states none. `usort` leaves an empty array untouched,
so sorting an emptied collection keeps its next automatic index
(`UnsetSortAppend`).

The model follows PHP 7.0 to 8.2. In those versions `foreach` over `$_assets`
(in `compile`, `hash_content` and `_invoke`) leaves the array's internal pointer
alone, and the automatic index follows the rule before 8.3.

## Model

| member | source | states |
|---|---|---|
| `AssetCollection.Collection.constructor` | classes/Kohana/Asset/Collection.php:97-108 | with a valid type: stores type, name, destination path, copy flag and folder; starts with no assets and NULL destinations and time |
| `AssetCollection.Collection.Create` | classes/Kohana/Asset/Collection.php:97-100 | construction fails (None) exactly when the type is not a valid type |
| `AssetCollection.Collection.OffsetSet` | classes/Kohana/Asset/Collection.php:253-263 | NULL offset: appends the asset last, under the next automatic index, a key not yet present, earlier entries unchanged; key offset: afterwards that key reads as the asset; keeps the array well formed |
| `AssetCollection.Collection.OffsetExists` | classes/Kohana/Asset/Collection.php:265-268 | true exactly when an entry has the (normalised) key |
| `AssetCollection.Collection.OffsetUnset` | classes/Kohana/Asset/Collection.php:270-273 | the key is absent afterwards; count drops by one exactly when it was present; well-formedness kept |
| `AssetCollection.Collection.OffsetGet` | classes/Kohana/Asset/Collection.php:275-278 | NULL exactly when the key is absent; otherwise the value of the entry under that key |
| `AssetCollection.Collection.Rewind` | classes/Kohana/Asset/Collection.php:280-283 | pointer back to the first entry, entries unchanged |
| `AssetCollection.Collection.Current` | classes/Kohana/Asset/Collection.php:285-288 | the asset under the pointer, None (FALSE) exactly when past the end |
| `AssetCollection.Collection.CurrentKey` | classes/Kohana/Asset/Collection.php:290-293 | the key under the pointer, None (NULL) exactly when past the end |
| `AssetCollection.Collection.Next` | classes/Kohana/Asset/Collection.php:295-298 | pointer one step on (never past the end) and the new current asset returned |
| `AssetCollection.Collection.HasCurrent` | classes/Kohana/Asset/Collection.php:300-303 | true exactly when the pointer is on an entry |
| `AssetCollection.Collection.Count` | classes/Kohana/Asset/Collection.php:305-308 | the number of entries |
| `AssetCollection.Collection.Sort` | classes/Kohana/Asset/Collection.php:310-320 | returns true; same number of entries; the assets are a permutation of those before; weights non-decreasing; keys are 0..n-1; pointer reset; next index n when there are entries, while an empty array is left unchanged with its next index |
| `AssetCollection.Collection.Compile` | classes/Kohana/Asset/Collection.php:116-128 | the loop's result is the in-order concatenation of each asset's output followed by "\n\n" |
| `AssetCollection.Collection.HashContent` | classes/Kohana/Asset/Collection.php:130-151 | the loop's result is crc32b of the haystack of the assets in order |
| `AssetCollection.Collection.SetDestinations` | classes/Kohana/Asset/Collection.php:153-158 | both destinations are built from the file name `name-hash.type` of the current assets |
| `AssetCollection.Collection.Invoke` | classes/Kohana/Asset/Collection.php:241-251 | same number of entries, each keeping its key and position, value mapped through the method |
| `AssetCollection.Collection.LastModified` | classes/Kohana/Asset/Collection.php:224-239 | a cached time is returned unchanged whatever the assets; with no cached time, the newest truthy asset time (or NULL) is returned and becomes the cache |
| `AssetCollection.Collection.NeedsRecompile` | classes/Kohana/Asset/Collection.php:214-217 | true exactly when the destination file is missing or older than last_modified(); may set the time cache |
| `AssetCollection.Collection.RecompileIfNeeded` | classes/Kohana/Asset/Collection.php:168-174 | destinations recomputed first; the compiled text is written to the destination file, stamped now, if and only if it was stale and copy is on; otherwise files and write log unchanged |
| `AssetCollection.Collection.Render` | classes/Kohana/Asset/Collection.php:166-177 | the write decision above, then html(type, destination_web) |
| `AssetCollection.Collection.GetWebpath` | classes/Kohana/Asset/Collection.php:185-196 | the write decision above, then destination_web |
| `AssetCollection.Collection.Inline` | classes/Kohana/Asset/Collection.php:204-207 | html_inline(type, compiled text); no file is touched |
| `AssetCollection.Traverse` | classes/Kohana/Asset/Collection.php:280-303 | rewind/valid/key/current/next visit exactly the entries, in order, leaving them and the automatic index unchanged |
| `AssetCollection.LastModifiedSticks` | classes/Kohana/Asset/Collection.php:224-239 | a time returned once is returned again after an asset is added or replaced; while NULL, the next call sees the new assets |
| `AssetCollection.UnsetSortAppend` | classes/Kohana/Asset/Collection.php:253-320 | append, unset of key 0, sort and append on a new collection store the second asset under key 1, because sorting the empty array keeps its next index |
| `AssetCollection.SortReusesIndex` | classes/Kohana/Asset/Collection.php:253-320 | three appends, unset of key 2, sort and an append store the last asset under key 2 again, because the sort resets the automatic index to the count |
| `AssetCollection.RenderTwice` | classes/Kohana/Asset/Collection.php:166-177 | two renders of unchanged assets return the same HTML and write at most once, when the clock is no earlier than the asset times and than a time already cached |
| `AssetRecords.Asset.HashSource` | classes/Kohana/Asset/Collection.php:138-145 | the source file when it is truthy, otherwise the content |
| `Files.IsModifiedLater` | classes/Kohana/Asset/Collection.php:216 | a destination missing from the files is stale; a present one with a time is stale exactly when it is older than the time; with no time, only a missing destination is stale |
| `Files.FileStore.PutContents` | classes/Kohana/Asset/Collection.php:173 | the file at the path now holds the content stamped with the write time; the write is logged |
| `OrderedMaps.Normalize` | classes/Kohana/Asset/Collection.php:261 | the stored key is normal; normal keys and integer keys are kept; a key that stays a string is the original |
| `OrderedMaps.NormalizeNumericString` | classes/Kohana/Asset/Collection.php:261 | a string key becomes integer key n exactly when it is the decimal text of n |
| `OrderedMaps.Empty` | classes/Kohana/Asset/Collection.php:15 | a well-formed array with no entries |
| `OrderedMaps.Find` | classes/Kohana/Asset/Collection.php:277 | the first position holding the key, or None exactly when no entry has the key |
| `OrderedMaps.FindFirst` | classes/Kohana/Asset/Collection.php:277 | any first position holding the key is what Find returns |
| `OrderedMaps.Get` | classes/Kohana/Asset/Collection.php:275-278 | None exactly when the normalised key is absent; otherwise the value of an entry under it |
| `OrderedMaps.Has` | classes/Kohana/Asset/Collection.php:265-268 | true exactly when an entry has the normalised key |
| `OrderedMaps.BumpNext` | classes/Kohana/Asset/Collection.php:261 | the automatic index never decreases and ends up past any new integer key |
| `OrderedMaps.Set` | classes/Kohana/Asset/Collection.php:259-262 | keeps well-formedness; present key: same length, same keys in the same places, only that key's entry changed; absent key: appended at the end |
| `OrderedMaps.GetAt` | classes/Kohana/Asset/Collection.php:275-278 | in a well-formed array every entry is read back under its own key |
| `OrderedMaps.GetAfterSet` | classes/Kohana/Asset/Collection.php:259-278 | after a write under k, k reads as the written value and every other key as before |
| `OrderedMaps.Push` | classes/Kohana/Asset/Collection.php:257 | one entry more, earlier entries unchanged, the automatic index moves up, the pointer stays; in a well-formed array the new key was unused and the result is well formed |
| `OrderedMaps.PushAppends` | classes/Kohana/Asset/Collection.php:255-258 | the new entry is last under the old automatic index, reads back as the value, and every other key reads as before |
| `OrderedMaps.RemoveAtWellFormed` | classes/Kohana/Asset/Collection.php:272 | removing an entry keeps the array well formed and leaves its key absent |
| `OrderedMaps.Unset` | classes/Kohana/Asset/Collection.php:272 | the automatic index is not lowered; an absent key changes nothing; a present key removes one entry; every remaining entry was there before |
| `OrderedMaps.UnsetShape` | classes/Kohana/Asset/Collection.php:270-273 | unset keeps well-formedness, leaves k absent, lowers the count by one exactly when k was present, keeps the others in order, and keeps the pointer on its entry unless that entry was removed; an absent key changes nothing |
| `OrderedMaps.FindAfterRemoveAt` | classes/Kohana/Asset/Collection.php:272 | after a removal every other key is found one place earlier if it stood past the removed slot, at the same place otherwise |
| `OrderedMaps.UnsetKeepsOthers` | classes/Kohana/Asset/Collection.php:270-278 | after unset of k every other key reads as before |
| `OrderedMaps.UnsetRemovesOnly` | classes/Kohana/Asset/Collection.php:270-278 | after unset of k, k reads as NULL and every other key as before |
| `OrderedMaps.Reset` | classes/Kohana/Asset/Collection.php:282 | entries and automatic index unchanged; the current entry is the first one, or none for an empty array |
| `OrderedMaps.CurrentEntry` | classes/Kohana/Asset/Collection.php:287-292 | none exactly when the pointer is past the end; otherwise one of the entries |
| `OrderedMaps.Next` | classes/Kohana/Asset/Collection.php:297 | entries and automatic index unchanged; the pointer moves one step when on an entry, and nothing changes past the end |
| `OrderedMaps.FromList` | classes/Kohana/Asset/Collection.php:312 | the renumbered array of a non-empty sort: well formed, the given values in order under keys 0..n-1, next index n, pointer reset |
| `OrderedMaps.AdvanceVisitsInOrder` | classes/Kohana/Asset/Collection.php:280-303 | after reset and i calls of next, the pointer is on entry i (or past the end when i = n), entries unchanged |
| `PhpStrings.NatToString` | classes/Kohana/Asset/Collection.php:147 | non-empty digit string; leading '0' only for zero |
| `PhpStrings.IntToString` | classes/Kohana/Asset/Collection.php:147 | non-empty; starts with '-' exactly for negative numbers |
| `PhpStrings.DigitsValueOfNatToString` | classes/Kohana/Asset/Collection.php:147 | the digits of n read back as n |
| `PhpStrings.NatToStringOfDigitsValue` | classes/Kohana/Asset/Collection.php:261 | a canonical numeral is the text of its value |
| `PhpStrings.ParseCanonicalInt` | classes/Kohana/Asset/Collection.php:261 | a string read as an integer key is non-empty and negative exactly when it starts with '-'; a non-negative one is a canonical numeral of that value |
| `PhpStrings.IsTruthy` | classes/Kohana/Asset/Collection.php:138 | every string of two or more characters is true, and the empty string is false |
| `PhpStrings.ParseIffIntToString` | classes/Kohana/Asset/Collection.php:261 | a string reads as the integer key n exactly when it is the text of n |
| `WeightSort.Compare` | classes/Kohana/Asset/Collection.php:312-319 | negative, zero, positive exactly when the first weight is less, equal, greater |
| `WeightSort.Insert` | classes/Kohana/Asset/Collection.php:312 | the result holds the list's assets plus the inserted one |
| `WeightSort.InsertKeepsSorted` | classes/Kohana/Asset/Collection.php:312 | inserting into a weight-sorted list keeps it sorted |
| `WeightSort.SortByWeight` | classes/Kohana/Asset/Collection.php:312-319 | a permutation of the input with weights non-decreasing |
| `WeightSort.LighterComesFirst` | classes/Kohana/Asset/Collection.php:310-320 | for two assets of different weight every sorted arrangement puts the lighter first |
| `MergedOutput.CompiledAppend` | classes/Kohana/Asset/Collection.php:116-128 | the merged text of two runs of assets is the concatenation of theirs |
| `MergedOutput.CompiledSnoc` | classes/Kohana/Asset/Collection.php:124 | one more asset adds its output and "\n\n" at the end |
| `MergedOutput.CompiledAt` | classes/Kohana/Asset/Collection.php:116-128 | asset i's output and "\n\n" sit between the merged texts of the assets before and after it |
| `MergedOutput.Compiled` | classes/Kohana/Asset/Collection.php:119-125 | length is the sum of the output lengths plus 2 per asset, so no assets give "" |
| `MergedOutput.SortThenCompile` | classes/Kohana/Asset/Collection.php:116-128 | weights 2 and 1 with outputs "b" and "a": sorted, the merged text is "a\n\nb\n\n" |
| `MergedOutput.Haystack` | classes/Kohana/Asset/Collection.php:132-147 | at least one character per asset, since every weight text is non-empty |
| `MergedOutput.HaystackAppend` | classes/Kohana/Asset/Collection.php:130-151 | the haystack of two runs of assets is the concatenation of theirs |
| `MergedOutput.HaystackSnoc` | classes/Kohana/Asset/Collection.php:138-147 | one more asset adds its source file (or content) and its weight text at the end |
| `MergedOutput.HaystackDependsOnSourceAndWeight` | classes/Kohana/Asset/Collection.php:134-148 | assets with equal source-or-content and weights, in order, give equal haystacks |
| `MergedOutput.HaystackIsOrderSensitive` | classes/Kohana/Asset/Collection.php:134-148 | one example: assets with sources a.css and b.css, both of weight 1, give different haystacks in the two orders |
| `MergedOutput.FileName` | classes/Kohana/Asset/Collection.php:156-157 | the name, then '-', then the hash, then '.', then the type, with the length of those parts plus 2 |
| `MergedOutput.FileNameDeterminesHash` | classes/Kohana/Asset/Collection.php:156-157 | same name and type: equal file names imply equal hashes |
| `Timestamps.TruthyTimes` | classes/Kohana/Asset/Collection.php:229 | keeps exactly the timestamps that are set and non-zero |
| `Timestamps.MaxOf` | classes/Kohana/Asset/Collection.php:234 | an element of the list at least as large as every element |
| `Timestamps.LatestTime` | classes/Kohana/Asset/Collection.php:229-234 | a result is non-zero and is the time of some asset |
| `Timestamps.LatestTimeIsMax` | classes/Kohana/Asset/Collection.php:229-234 | NULL exactly when no asset has a truthy time; otherwise an asset's truthy time at least as new as every other |
| `Timestamps.TruthyTimesAppend` | classes/Kohana/Asset/Collection.php:229 | filtering two runs of times is the concatenation of filtering each |
| `Timestamps.UntimedAssetIgnored` | classes/Kohana/Asset/Collection.php:229-234 | an asset with no time, anywhere in the list, does not change the result |

## Left out

- Asset classes: `Asset::compile` and the asset's processing are not part of this model. An asset is a record of what the collection reads from it, and its compile output is taken as a fixed text per `process` value. Asset objects are values here, so a change to an asset object after it was added (aliasing) is not modelled.
- Helpers: `Assets::require_valid_type`, `Assets::file_path`, `Assets::web_path`, `Asset::html` and `Asset::html_inline` are not part of this model. They are parameters of the collection: a set of valid types and uninterpreted functions.
- crc32b: `hash('crc32b', ...)` is an uninterpreted function from text to text. Only the haystack it receives is modelled, not the CRC-32 (ISO 3309) computation itself.
- File I/O: `file_put_contents` and file modification times are a map from path to (text, time), plus a ghost log of writes. `now` is a parameter, because the clock is external. Directory creation and failed writes (I/O errors) are not modelled.
- Staleness test: `Assets::is_modified_later` is modelled by `Files.IsModifiedLater`, following its documented meaning: the file is missing, or older than the time. With a NULL time only a missing file counts. Its own code is not part of this model. The model's staleness test sees the time the last write stamped; PHP's stat cache within one request (cleared by `clearstatcache`) could make a helper built on `is_file`/`filemtime` see an older time, so `AssetCollection.RenderTwice`'s "at most one write" holds for the modelled file store only.
- NULL values: an array entry whose value is NULL (`isset` false but counted) is not modelled. Every stored value is an asset.
- Other key types: keys of other PHP types (bool, float, NULL in a read) are not modelled. The integer range limit on numeric-string keys is not modelled, and neither is PHP 8.3's changed automatic index after negative keys: the index starts at 0 and moves only past integer keys at or above it.
- Integer width: integers are unbounded. Weight differences that overflow PHP_INT_MAX in the sort closure, and appends past PHP_INT_MAX, are not modelled.
- Sort algorithm: usort's algorithm is PHP's own. `WeightSort.SortByWeight` is a stand-in. `Collection.Sort` states only the properties any correct sort gives, and no order for equal weights, because that order differs between PHP versions (stable only from 8.0).
- Iterator and mutation: PHP 7's pointer behaviour when an array is changed during `foreach` is modelled only as far as `OrderedMaps.UnsetShape` states it.
- Concurrency: two processes writing the same merged file is not modelled. There is no concurrency in the code.
