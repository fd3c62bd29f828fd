# Kartex image provider — verified model of the caching and naming core

This project models, in Dafny, the bookkeeping at the heart of the Kartex
image provider. Each piece is proved against a specification function.

- **ImageService**: the tier orchestrator (`image_service.dfy`, with its pure
  transitions in `images.dfy`).
  - It keeps a slice of image records, newest at index 0, and a byte counter.
  - The cache sits in front of a primary storage tier and an optional
    secondary tier.
  - `AddImage` replaces a record in place, or evicts from the back for bytes,
    rejects what still does not fit, inserts at the front and evicts from the
    back for count.
  - `GetImage` probes the cache with an extension-insensitive id match, then
    the primary tier, then the secondary tier. It normalises every hit to
    WebP, inserts tier hits into the cache with a read-through insert, and
    writes secondary hits back to the primary tier on a best-effort basis.
  - `DeleteImage` removes the first exact-id record, then deletes from the
    primary tier and then from the secondary tier.
  - `GetImages` returns the cached records.
  - The image library is a `Codec` value: a decodability predicate and a
    fallible WebP encoder.
  - The tiers are maps from ids to bytes with per-operation failure flags.
    The file-system backend and the object-store backend differ only in
    whether deleting a missing id is an error.
- **MemoryCache**: the LRU byte cache (`memory_cache.dfy`). A class holds a
  key → element map and the recency list, a sequence of heap-allocated items
  with the front most recently used. `Get` and `Set` are proved against the
  value-level `Lookup` and `Store`. The map-to-list correspondence is a class
  invariant.
- **RateLimiter.Allow**: the per-client sliding-window log
  (`rate_limit.dfy`). The filter loop is proved against `Prune`, and `Allow`
  against the transition `AllowStep`. The current time is a parameter.
- **FileSystemStorage**: path sharding and listing (`storage.dfy`).
  - Go strings are bytes, so storage works on the UTF-8 bytes of an id.
  - `getPath` cuts those bytes into two-byte directory names and a `.webp`
    file name. A character of several bytes can be cut in the middle.
  - `filepath.Join` cleans the path it builds: a ".." directory name climbs
    one level up.
  - `List` turns a walk's relative paths back into ids.
  - `Save`/`Get`/`Delete` act on a map from paths to bytes.
  - The round trip from id to stored path to listed id is proved for every
    "plain" id. A plain id holds no '/' and has no ".." directory piece; ids
    containing '.' elsewhere are plain.
- **CORS decision** (`cors.dfy`): the comma-split allow-list, the `*`
  wildcard, the echoed origin and the 204 abort of an allowed `OPTIONS`
  request.

Behaviours of the code worth knowing:

- A rejected `AddImage` has already emptied the cache. The byte eviction loop
  runs before the size check (`Images.AddRejects`).
- The read-through insert after a tier hit drops index 0, which is the
  newest record, and appends at the end, which is the oldest position. It
  does not drop the oldest record (`Images.ReadThroughBound`).
- The read-through insert never touches the byte counter
  (`Images.ReadThroughBreaksAccounting`).
- A cache hit that re-encodes a record in place does not adjust the counter
  either (`Images.HitNormalizeBreaksAccounting`). Byte accounting is
  therefore an invariant of `AddImage` and `DeleteImage` only, not of the
  service.
- `AddImage` does not normalise the record it is given. Normalisation
  happens only on the read paths of `GetImage`.
- Ids are cut by byte, not by character. "éa" (3 bytes) is stored as
  `é/a.webp`, and "€" (3 bytes) is split inside the character
  (`Storage.MultiByteIds`).
- A ".." directory piece makes two ids share a file. "xy..ab" is stored at
  `ab.webp`, the file of "ab", and is listed as "ab". "..ab" is stored
  beside the base directory (`Storage.DotDotAliases`,
  `Storage.DotDotEscapes`, `Storage.DotDotListed`).

## Model

| member | source | states |
|---|---|---|
| Common.FirstIndex | internal/services/image.go:67-75 | the search loop's result: the first position holding the key, with no earlier occurrence, or none exactly when the key is absent |
| Common.SplitJoin | internal/storage/storage.go:50 | splitting a joined path at the separator gives back its names, when none holds the separator |
| Images.TierGet | internal/storage/storage.go:64-76 | a tier read succeeds exactly when the read does not fail and the id is stored; it returns the stored bytes under the requested id with the backend's format tag; any error is attributed to that tier |
| Images.TierSave | internal/storage/storage.go:53-62 | a save either overwrites the bytes under the record's id or fails and changes nothing |
| Images.TierDelete | internal/storage/storage.go:78-81 | a delete succeeds exactly when it does not fail and the id is stored or the backend is the object store; success removes the id, failure changes nothing |
| Images.SaveThenGet | internal/storage/storage.go:53-76 | after a successful save, a get of the same id returns the saved bytes under that id |
| Images.Normalize | internal/services/image.go:119-140 | normalisation keeps the record's id |
| Images.NormalizeCases | internal/services/image.go:119-141 | a record tagged "webp" or with undecodable data is returned unchanged; a decodable non-WebP record is re-encoded and tagged "webp", or the encoding error is returned |
| Images.NormalizeIdempotent | internal/services/image.go:119-141 | normalising an already normalised record changes nothing |
| Images.TierReadsAreNotReencoded | internal/services/image.go:150-151 | a record read from a tier that tags its reads "webp" passes normalisation unchanged |
| Images.Ext | internal/services/image.go:111 | filepath.Ext: a suffix of the id that is empty exactly when no '.' follows the last '/'; otherwise it starts at a '.' and holds no other '.' or '/' |
| Images.StripExt | internal/services/image.go:111 | the base is a prefix of the id |
| Images.StripExtRemoves | internal/services/image.go:111 | stripping removes nothing, or a '.' and the rest of the last path element; it removes nothing exactly when the last element has no '.' |
| Images.StripAt | internal/services/image.go:111 | the base ends at the last '.' that is followed by no '/' |
| Images.ExtensionIgnored | internal/services/image.go:111-117 | "cat.png" and "cat.jpg" have the same base "cat" |
| Images.PlainIdIsBase | internal/services/image.go:111-117 | an id without an extension is its own base |
| Images.OnlyLastExtension | internal/services/image.go:111 | only the last extension is stripped ("a.tar.gz" to "a.tar") |
| Images.DirectoryDotIgnored | internal/services/image.go:111 | a '.' in a directory element is not an extension |
| Images.BaseMissIsIdMiss | internal/services/image.go:115-117 | a miss on the extension-insensitive match is a miss on the exact id too |
| Images.SumBytesUpdate | internal/services/image.go:70-72 | replacing one record moves the byte sum by new size minus old size |
| Images.SumBytesRemove | internal/services/image.go:234-235 | removing one record lowers the byte sum by its size |
| Images.ByteEvict | internal/services/image.go:78-91 | the byte eviction loop keeps a prefix, so only the oldest records go; it lowers the counter by exactly the evicted bytes; it stops when the cache is empty or the image fits, and not earlier |
| Images.CountEvict | internal/services/image.go:97-104 | the count eviction loop keeps the first min(len, maxSize) records and lowers the counter by exactly the evicted bytes |
| Images.AddToCache | internal/services/image.go:62-107 | an error is only TooLarge with the image size, only for an id not yet cached, and comes with an empty cache; on success the image is cached; a cached id never fails and keeps the count |
| Images.AddNew | internal/services/image.go:77-106 | rejection leaves an empty cache whose counter plus the size still exceeds maxBytes, and reports that size and the room left; success puts the image at index 0 |
| Images.AddExisting | internal/services/image.go:67-74 | adding a cached id replaces that record at its index, keeps the length, moves the counter by new size minus old size, with no eviction and no bound check |
| Images.InsertFront | internal/services/image.go:93-104 | an image that fits, pushed on the front and count-evicted, stays at index 0 within both bounds |
| Images.AddNewSucceeds | internal/services/image.go:77-104 | a successful add of a new id leaves it at index 0, at most maxSize records and at most maxBytes counted bytes; the rest is a prefix of the old cache |
| Images.AddNewFits | internal/services/image.go:93-104 | a successful insertion path leaves the image at index 0 within both bounds, after a prefix of the old cache |
| Images.AddRejects | internal/services/image.go:79-90 | a failed add returns TooLarge with the image size and leaves the cache empty; with an accurate counter, an image larger than maxBytes always fails |
| Images.AddKeepsAccounting | internal/services/image.go:66-104 | add keeps the counter equal to the sum of the cached sizes |
| Images.AddKeepsShape | internal/services/image.go:62-107 | add keeps the count bound and unique ids |
| Images.AddKeepsInvariants | internal/services/image.go:62-107 | add keeps the count bound, unique ids, and accurate accounting when it held before |
| Images.ReadThroughBound | internal/services/image.go:170-175 | the read-through insert keeps the count bound, appends the record at the end, and drops index 0 exactly when the cache was full |
| Images.ReadThrough | internal/services/image.go:170-175 | the record ends up last; the count stays the same when the cache was full and grows by one otherwise; nothing but the record is added |
| Images.ReadThroughUnique | internal/services/image.go:208-213 | the read-through insert of a new id keeps ids unique |
| Images.ReadThroughBreaksAccounting | internal/services/image.go:170-175 | from an accurate state, a read-through insert that replaces a record of another size leaves the counter wrong |
| Images.HitNormalizeBreaksAccounting | internal/services/image.go:138-139 | from an accurate state, a cache hit that re-encodes to another size succeeds and leaves the counter wrong |
| Images.GetFromTiers | internal/services/image.go:109-225 | a returned record has the same stripped id as the query; an error changes no record; a cache hit keeps the count and never touches the primary tier |
| Images.GetOnMiss | internal/services/image.go:146-224 | a returned record has exactly the queried id and is inserted by the read-through; an error changes nothing; the primary is written only after its own miss and a secondary hit |
| Images.GetHit | internal/services/image.go:115-142 | a hit returns the first record whose stripped id equals the stripped query, normalised; only that record changes, in place; the tiers are not touched |
| Images.GetPrimaryHit | internal/services/image.go:147-177 | after a cache miss, a primary hit returns the primary record normalised and appends it by the read-through insert; the primary tier is not written |
| Images.GetSecondaryHit | internal/services/image.go:180-220 | a secondary hit returns success whether or not the write-back fails; the write-back stores the normalised bytes or changes nothing |
| Images.GetMissReportsLastTier | internal/services/image.go:179-224 | when every consulted tier misses, the error is the last consulted tier's and nothing changes |
| Images.GetOnMissShape | internal/services/image.go:146-224 | after a miss the cache is unchanged, or the returned record with the queried id has been inserted by the read-through |
| Images.GetKeepsShape | internal/services/image.go:109-225 | GetImage keeps the count bound and unique ids |
| Images.HitKeepsIds | internal/services/image.go:115-142 | a cache hit keeps the count and every record's id |
| Images.MissKeepsShape | internal/services/image.go:146-224 | the miss path keeps the count bound and unique ids |
| Images.RemoveFromCache | internal/services/image.go:231-238 | a missing id changes nothing; a present one removes exactly one record; nothing new appears |
| Images.DeleteEverywhere | internal/services/image.go:227-253 | success leaves the id out of the primary tier; a primary error is returned and changes no tier; the secondary changes only after a primary success, and then the id is gone from it |
| Images.DeleteBehaviour | internal/services/image.go:227-253 | delete removes at most the first exact-id record and subtracts its size; it returns the primary's delete error; the secondary is touched only after a primary success and its error never surfaces |
| Images.DeleteKeepsInvariants | internal/services/image.go:231-238 | delete keeps the count bound, unique ids and accurate accounting |
| ImageServices.Wrap64 | internal/services/image.go:57 | Go int64 arithmetic: the result is in the int64 range and equals the input when that is in range |
| ImageServices.CacheLimit | internal/services/image.go:38-50 | a setting is used only when it is present and positive, else the default; the result is positive |
| ImageServices.MaxBytesExact | internal/services/image.go:57 | below 2^43 MB the byte budget is exactly mb * 1048576 and positive |
| ImageServices.MaxBytesWraps | internal/services/image.go:57 | at 2^43 MB the budget wraps to -2^63 |
| ImageServices.ImageService.constructor | internal/services/image.go:37-60 | an empty, accurately counted cache with the limits derived from the settings |
| ImageServices.ImageService.AddImage | internal/services/image.go:62-107 | the new state and error are AddToCache's; the invariant and accurate accounting are kept; the tiers are untouched |
| ImageServices.ImageService.AddNewImage | internal/services/image.go:77-106 | the part after the search: the new state and error are AddNew's |
| ImageServices.ImageService.EvictForBytes | internal/services/image.go:81-85 | the loop ends in ByteEvict's state |
| ImageServices.ImageService.EvictForCount | internal/services/image.go:98-104 | the loop ends in CountEvict's state |
| ImageServices.ImageService.GetImage | internal/services/image.go:109-225 | records, primary tier and result are GetFromTiers'; the counter and the secondary tier are unchanged; the invariant is kept |
| ImageServices.ImageService.FindCached | internal/services/image.go:115-117 | the search finds the first record whose stripped id is the stripped query |
| ImageServices.ImageService.NormalizeCached | internal/services/image.go:115-141 | on a hit at the first matching record, the result is that record normalised, it replaces the record in place only on success, and the outcome is GetFromTiers'; the invariant is kept |
| ImageServices.ImageService.GetUncached | internal/services/image.go:144-224 | on a miss, the outcome is GetFromTiers' and the invariant is kept |
| ImageServices.ImageService.GetOnMissFromTiers | internal/services/image.go:146-224 | the miss path's records, primary tier and result are GetOnMiss' |
| ImageServices.ImageService.InsertReadThrough | internal/services/image.go:170-175 | the records become ReadThrough's |
| ImageServices.ImageService.DeleteImage | internal/services/image.go:227-253 | cache, tiers and result are DeleteEverywhere's; the invariant and accurate accounting are kept |
| ImageServices.ImageService.RemoveCached | internal/services/image.go:231-238 | the cache becomes RemoveFromCache's |
| ImageServices.ImageService.GetImages | internal/services/image.go:255-259 | the cached records themselves, within the count bound and with unique ids |
| LruCache.Without | internal/cache/cache.go:59 | taking one element out leaves exactly the other elements |
| LruCache.Lookup | internal/cache/cache.go:33-42 | the count is kept; a hit puts the found key with the returned value in front; a miss changes nothing |
| LruCache.Store | internal/cache/cache.go:44-66 | the stored pair is in front; the count grows by one only for a new key below capacity; no other entry appears |
| LruCache.StoreThenLookup | internal/cache/cache.go:44-66 | after Set(k, v), k is at the front and Get(k) yields v and changes nothing further |
| LruCache.StoreExisting | internal/cache/cache.go:48-52 | Set on a present key moves it to the front with its new value, keeps every other entry in order and keeps the count |
| LruCache.StoreNewWhenFull | internal/cache/cache.go:54-65 | Set of a new key on a full cache drops exactly the back entry, whose key is then absent |
| LruCache.StoreNewWithRoom | internal/cache/cache.go:63-65 | Set of a new key below capacity evicts nothing |
| LruCache.StoreBound | internal/cache/cache.go:54-65 | the entry count never exceeds max(capacity, 1) |
| LruCache.StoreDistinct | internal/cache/cache.go:44-66 | keys stay distinct, and the only key Set can add is its own |
| LruCache.LookupOnlyReorders | internal/cache/cache.go:37-41 | Get on a missing key changes nothing and yields nothing; Get on a present key yields a value, puts the key in front and keeps the same entries |
| LruCache.LookupExisting | internal/cache/cache.go:37-41 | a hit on the first entry with the key moves it to the front, keeps every other entry in order and returns its value |
| LruCache.LinkedModel | internal/cache/cache.go:13-18 | under the map/list correspondence, the listed keys are distinct and are exactly the mapped keys |
| LruCache.LinkedMove | internal/cache/cache.go:38 | moving an element to the front keeps the correspondence |
| LruCache.LinkedEvict | internal/cache/cache.go:56-59 | unlinking the back element and deleting its key keeps the correspondence |
| LruCache.LinkedPush | internal/cache/cache.go:63-65 | linking a fresh element for an unmapped key and mapping it keeps the correspondence |
| LruCache.Item.constructor | internal/cache/cache.go:63 | an element holding the given key and value |
| LruCache.MemoryCache.constructor | internal/cache/cache.go:25-31 | an empty cache with the given capacity |
| LruCache.MemoryCache.MoveToFront | internal/cache/cache.go:38 | the element at the given position moves to the front; the correspondence is kept |
| LruCache.MemoryCache.Get | internal/cache/cache.go:33-42 | new entries and answer are Lookup's; a miss returns an empty value and leaves the list alone; found exactly when the key is mapped |
| LruCache.MemoryCache.WriteFront | internal/cache/cache.go:50 | only the front entry's value changes |
| LruCache.MemoryCache.EvictBack | internal/cache/cache.go:54-61 | the back element leaves the list and its key leaves the map; the other entries are kept |
| LruCache.MemoryCache.PushFront | internal/cache/cache.go:63-65 | a fresh entry is on the front and mapped; the other entries follow unchanged |
| LruCache.MemoryCache.Set | internal/cache/cache.go:44-66 | new entries are Store's; the key is mapped to the front element; the correspondence and the bound are kept |
| LruCache.MemoryCache.SetExisting | internal/cache/cache.go:48-52 | Set on a mapped key, against Store |
| LruCache.MemoryCache.SetNew | internal/cache/cache.go:54-65 | Set on an unmapped key, against Store |
| RateLimit.Prune | internal/middleware/rate_limit.go:36-42 | the pruned log holds each logged time strictly after the window start exactly as often as the log does, and no other time; it is no longer than the log |
| RateLimit.PruneConcat | internal/middleware/rate_limit.go:38-42 | pruning a log in two parts prunes each part and keeps their order |
| RateLimit.PruneSorted | internal/middleware/rate_limit.go:38-42 | pruning keeps a sorted log sorted |
| RateLimit.AllowDecision | internal/middleware/rate_limit.go:43-52 | refused exactly when the pruned log holds limit or more entries; on admission the log is the pruned log plus now; on refusal it is the pruned log |
| RateLimit.AllowStep | internal/middleware/rate_limit.go:28-53 | the client is logged afterwards and no other is added; the log grows by at most one; an admission logs now last within the limit; a refusal means the limit is reached |
| RateLimit.AllowKeepsWindow | internal/middleware/rate_limit.go:33-43 | every time logged for the client afterwards is strictly after now - window, or is the admitted now; with a positive window, all of them are |
| RateLimit.AllowIsolatesClients | internal/middleware/rate_limit.go:36-51 | the logs of other clients are untouched |
| RateLimit.NonPositiveLimitRefuses | internal/middleware/rate_limit.go:46-47 | with limit <= 0 nothing is admitted and now is not logged |
| RateLimit.AllowKeepsBound | internal/middleware/rate_limit.go:38-52 | with limit >= 0, logs within the limit stay within it |
| RateLimit.AllowKeepsOrder | internal/middleware/rate_limit.go:38-52 | logs in time order, none later than now, stay in time order |
| RateLimit.AllowedLogChronological | internal/middleware/rate_limit.go:38-52 | the log written back is in time order and holds nothing later than now |
| RateLimit.RateLimiter.constructor | internal/middleware/rate_limit.go:20-26 | an empty log map with the given limit and window |
| RateLimit.RateLimiter.Allow | internal/middleware/rate_limit.go:28-53 | new logs and answer are AllowStep's |
| Storage.EncodeChar | internal/storage/storage.go:32 | a character is one to four bytes; an ASCII character is its own byte, any other only bytes of 0x80 and above |
| Storage.Utf8 | internal/storage/storage.go:32 | the bytes of a string number at least its characters and at most four times as many |
| Storage.Utf8Ascii | internal/storage/storage.go:32 | an ASCII string is its own bytes, one per character |
| Storage.Utf8Separator | internal/storage/storage.go:96 | the bytes hold the separator exactly when the string holds '/' |
| Storage.Chunks | internal/storage/storage.go:36-43 | an id of n bytes is cut into (n+1)/2 pieces |
| Storage.ChunkAt | internal/storage/storage.go:36-43 | piece k is the slice of the id's bytes from 2k, two bytes long or up to the end |
| Storage.ChunkLengths | internal/storage/storage.go:36-43 | every piece but the last has two bytes; the last has one or two, two exactly for an even byte length |
| Storage.ChunksConcat | internal/storage/storage.go:36-43 | the pieces glue back into the id |
| Storage.ShortIdLayout | internal/storage/storage.go:32-34 | an id shorter than 2 bytes is named id.webp directly in the base directory |
| Storage.LongIdLayout | internal/storage/storage.go:45-50 | for longer ids, every piece but the last is a directory and the last plus ".webp" names the file |
| Storage.MultiByteIds | internal/storage/storage.go:32-47 | "é" (2 bytes) is not short; "éa" is the directory é and the file a.webp; "€" is cut after its second byte |
| Storage.ThreeByteLayout | internal/storage/storage.go:36-47 | a three-byte id is a two-byte directory and a one-byte file name |
| Storage.Layout | internal/storage/storage.go:29-47 | at least one name, the last ending in ".webp"; every directory name has two bytes |
| Storage.LayoutSpellsId | internal/storage/storage.go:29-51 | the path components glue into the id followed by ".webp" |
| Storage.LayoutInjective | internal/storage/storage.go:36-47 | distinct ids have distinct names before `filepath.Join` cleans them |
| Storage.RelPath | internal/storage/storage.go:50 | the relative path ends in ".webp" |
| Storage.IdFromRelPath | internal/storage/storage.go:96 | the reconstructed id holds no separator and is no longer than the path |
| Storage.Clean | internal/storage/storage.go:50 | `filepath.Clean` on a relative path: no name left is empty or "."; the path does not grow |
| Storage.CleanKeeps | internal/storage/storage.go:50 | cleaning leaves alone a path with no empty, "." or ".." name |
| Storage.LayoutNamesOrdinary | internal/storage/storage.go:36-47 | a plain id's names are never empty, "." or ".." |
| Storage.StoredPlain | internal/storage/storage.go:29-51 | a plain id is stored exactly at its uncleaned names |
| Storage.StoredInjective | internal/storage/storage.go:29-51 | distinct plain ids are stored at distinct paths |
| Storage.DotDotAliases | internal/storage/storage.go:36-50 | "xy..ab" and "ab" are stored at the same path, ab.webp |
| Storage.DotDotEscapes | internal/storage/storage.go:36-50 | "..ab" is stored at ../ab.webp, outside the base directory |
| Storage.RemoveAll | internal/storage/storage.go:96 | the result holds no separator and keeps every other byte |
| Storage.RelPathShape | internal/storage/storage.go:29-51 | the relative path is id.webp for a short id, and otherwise the joined pieces followed by ".webp"; it always ends in ".webp" |
| Storage.ListRoundTrip | internal/storage/storage.go:96 | the reconstruction recovers every id without a separator from its uncleaned relative path |
| Storage.Listed | internal/storage/storage.go:83-103 | an id is listed exactly when some non-directory entry ending in ".webp" reconstructs to it |
| Storage.SavedEntryListed | internal/storage/storage.go:89-98 | the walk entry of the file saved for a plain id is a listable ".webp" file whose reconstructed id is that id |
| Storage.ListSavedIds | internal/storage/storage.go:83-103 | listing a tree holding exactly the files saved for some plain ids reports those ids in walk order |
| Storage.DotDotListed | internal/storage/storage.go:83-103 | the file saved for "xy..ab" is listed as "ab" |
| Storage.FileSystemStorage.constructor | internal/storage/storage.go:22-27 | an empty tree under the given base directory |
| Storage.FileSystemStorage.GetPath | internal/storage/storage.go:29-51 | the base directory followed by the cleaned names `filepath.Join` gives for the id's bytes |
| Storage.ShardNames | internal/storage/storage.go:32-47 | the loop yields the layout's names for the id's bytes |
| Storage.FileSystemStorage.Save | internal/storage/storage.go:53-62 | the image's bytes are written at its path, and nothing else changes |
| Storage.FileSystemStorage.Get | internal/storage/storage.go:64-76 | a stored path yields the requested id, the stored bytes and the tag "webp"; a missing path is an error |
| Storage.FileSystemStorage.Delete | internal/storage/storage.go:78-81 | a stored path is removed; a missing path is an error and nothing changes |
| Storage.List | internal/storage/storage.go:83-103 | the loop collects Listed's ids |
| Common.Split | internal/middleware/cors.go:17 | at least one piece, none holding the separator, and the pieces joined with the separator give the input back |
| Cors.Matches | internal/middleware/cors.go:20-27 | the search loop's answer: some entry is "*" or equals the origin |
| Cors.EffectiveOrigins | internal/middleware/cors.go:12-15 | the list in force is never empty, and is the configured one when there is one |
| Cors.Decide | internal/middleware/cors.go:10-43 | the origin is echoed exactly when allowed, and it is the request's own origin; only an allowed OPTIONS request is aborted; with nothing configured every origin is allowed |
| Cors.DecideSpec | internal/middleware/cors.go:10-43 | allowed exactly when some comma-separated entry of the list in force is "*" or the origin; an allowed request echoes its own origin; only an allowed OPTIONS request is aborted with 204 |
| Cors.UnconfiguredAllowsAll | internal/middleware/cors.go:12-15 | with nothing configured every origin is allowed and echoed, not "*" |
| Cors.SingleOrigin | internal/middleware/cors.go:17-27 | a list of one non-wildcard origin admits exactly that origin |
| Cors.ExactMatchOnly | internal/middleware/cors.go:17-27 | entries are neither trimmed nor case-folded |

## Left out

- Concurrency: the mutexes of ImageService, MemoryCache and RateLimiter are not modelled. Every operation is atomic. The race on a cached record written after the read lock is released (internal/services/image.go:118, 138) is out of scope.
- Image decoding and WebP encoding are foreign libraries. They are the uninterpreted `Codec` fields. Decoding is deterministic, so the second-decode failure branches (internal/services/image.go:126-130, 152-156, 187-191) cannot be taken and are not modelled.
- Logging (`log.Printf`) is not modelled.
- Environment parsing is not modelled. `MAX_CACHE_FILES` and `MAX_CACHE_SIZE_MB` arrive already parsed (`None` when unset or not a number). `RATE_LIMIT`, `RATE_LIMIT_WINDOW` and `ALLOWED_ORIGINS` are parameters. `RateLimitMiddleware` and its 429 response are not modelled.
- `time.Now` is the `now` parameter of `Allow`. Times and the window are integer nanoseconds.
- File-system and network effects are not modelled. The file system is a map from path components to bytes; `MkdirAll` and I/O errors other than a missing file are not modelled. `filepath.Walk` is the input sequence of `Storage.List`, whose walk errors are not modelled.
- Storage.ListRoundTrip: holds for ids without '/', on the uncleaned relative path. `Storage.ListSavedIds` states the round trip through the cleaned path, for plain ids.
- Storage.ListSavedIds: holds for plain ids only. An id with a ".." directory piece is listed as another id (`Storage.DotDotListed`) or stored outside the tree.
- Storage.StoredInjective: holds for plain ids only. Ids with a ".." directory piece can share a path (`Storage.DotDotAliases`).
- Images.TierSave: a tier is a map keyed by id, so two ids never share an entry there. On the file system two ids with ".." directory pieces can share a file; that aliasing is modelled only in `Storage` (`Storage.DotDotAliases`).
- Storage.FileSystemStorage.GetPath: the base directory is one opaque name. Cleaning inside it is not modelled, and a ".." that climbs past it is kept as a ".." name after it.
- Storage.Utf8: ids are Dafny strings, sequences of Unicode scalar values. A Go id that is not valid UTF-8 has no counterpart here. The storage functions themselves work on any bytes.
- Storage.List: reports ids as bytes, the bytes of the Go strings it returns.
- Storage.Listed: applies the ".webp" check to the relative path; the source checks the full path, which ends the same way.
- ImageServices.ImageService.GetImages: returns the current sequence; the aliasing of the returned Go slice is not modelled.
- ImageServices.ImageService.AddImage: the byte counter is an unbounded integer. Only the `maxBytes` computation models int64 wrap-around (`MaxBytesFor`); overflow of `totalBytes` itself is not modelled.
- LruCache.MemoryCache.Get: finds the element's position by a search over the list. The source unlinks the element through its list-element reference in constant time. The resulting order is the same.
- The object-store backend (internal/storage/s3.go) is not part of this model beyond the tier semantics of `Images.TierDelete`, where deleting a missing object is not an error.
- The HTTP handlers (internal/handlers/image.go), the API-key middleware (internal/middleware/auth.go) and the process entry point (cmd/api/main.go) are not part of this model.
- The CORS header writes other than Access-Control-Allow-Origin (credentials, allowed headers, allowed methods) are constant strings and are not modelled.
