# VolleyEx core in Dafny

This project models the sequential core of VolleyEx, an image-loading layer for Android
built on top of Volley, and proves properties of that model.

- **DiskLruBasedCache** keeps Volley's `Cache.Entry` records in a journaled LRU
  store on disk.
  - Each entry lives in a slot named after the MD5 hex of its key.
  - The slot holds one binary record: a little-endian header, then the payload.
  - Module `CacheRecord` models the record codec as pure functions.
  - Module `CacheStreams` models the stream loops of the codec as methods:
    `streamToBytes`, `readStringStringMap`, `readHeader`, `writeStringStringMap` and
    `writeHeader`.
  - Module `DiskCache` models the journaled store and the cache class.
- **MD5Utils** (module `Md5`) turns a digest into a slot name with `byteArrayToHex`.
  That function writes the low nibble of each byte twice, and the cache names its slots
  with it; see Findings below.
- **ImageRequestMap** (module `Requests`) maps an ImageView to its request and cancels
  the request that `put` replaces and every request that `evictAll` drops.
- **ArrayImageLoader** (module `ArrayLoader`) loads images into the views of a list.
  - New requests go to a current registry and the request queue.
  - While the loader is paused, new requests go to a waiting registry instead, and
    `resume` replays it.
  - The loader keeps a memory cache from URL to bitmap and a set of loaded positions.
- **The pause-on-scroll listeners** (module `PauseOnScroll`) choose `pause()`, `resume()`
  or nothing for each scroll state.
- **SingleImageLoader** (module `SingleLoader`) loads one image into one view. The latest
  `load` wins, and responses for any other URL are ignored.
- **ImageScheme** (module `Schemes`) classifies a URI by its `scheme://` prefix,
  ignoring case. It also wraps a path in a prefix and crops a prefix off a URI.

The model represents the runtime environment as follows:

- **Streams.** An InputStream is the bytes still to be delivered. `chunk` is the largest
  number of bytes one `read` call returns. An OutputStream is the bytes it has accepted
  plus its `room`, the number of bytes it accepts before a write throws.
- **Strings.** The codec stores Java Strings as their UTF-8 bytes.
- **HashMap iteration order** is a parameter: a sequence that lists each key once.
- **MD5.** The digest function is a parameter. Only its 16-byte length is relied on.
- **Journal failures** are boolean parameters of the operation that meets them.
- **Java integers.** Java `int` and `long` are the subset types `int32` and `int64`. The
  casts `(int)` and the byte reassembly of `readLong` are written out as two's
  complement.

## Model

| member | source | states |
|---|---|---|
| CacheRecord.IntRoundTrip | volleyex/src/main/java/com/android/volley/cache/DiskLruBasedCache.java:428-442 | Every int written by `writeInt` is read back by `readInt` (four bytes, least significant first). |
| CacheRecord.IntBytesRoundTrip | volleyex/src/main/java/com/android/volley/cache/DiskLruBasedCache.java:428-442 | Any four bytes read as an int and written back are the same four bytes, so `readInt` and `writeInt` are inverse bijections. |
| CacheRecord.LongRoundTrip | volleyex/src/main/java/com/android/volley/cache/DiskLruBasedCache.java:444-466 | Every long written by `writeLong` is read back by `readLong`. |
| CacheRecord.LongBytesRoundTrip | volleyex/src/main/java/com/android/volley/cache/DiskLruBasedCache.java:444-466 | Any eight bytes read as a long and written back are the same eight bytes. |
| CacheRecord.DecodeInt | volleyex/src/main/java/com/android/volley/cache/DiskLruBasedCache.java:420-442 | `readInt` succeeds exactly when four bytes remain and consumes exactly four. Otherwise `read` throws EOFException. |
| CacheRecord.DecodeLong | volleyex/src/main/java/com/android/volley/cache/DiskLruBasedCache.java:455-466 | `readLong` succeeds exactly when eight bytes remain and consumes exactly eight. Otherwise it throws EOFException. |
| CacheRecord.DecodeBytes | volleyex/src/main/java/com/android/volley/cache/DiskLruBasedCache.java:289-300 | `streamToBytes(in, length)` returns exactly the next `length` bytes when there are that many. A negative length throws NegativeArraySizeException. A stream that ends early throws an IOException. |
| CacheRecord.StringReadBack | volleyex/src/main/java/com/android/volley/cache/DiskLruBasedCache.java:468-478 | `readString` reads back what `writeString` wrote (a long count, then the bytes), whatever follows it. |
| CacheRecord.StringStringMapReadBack | volleyex/src/main/java/com/android/volley/cache/DiskLruBasedCache.java:480-503 | `readStringStringMap` reads back the map that `writeStringStringMap` wrote, for any iteration order. A null map comes back empty. |
| CacheRecord.PutEntriesEnumerated | volleyex/src/main/java/com/android/volley/cache/DiskLruBasedCache.java:480-503 | Putting the entries of a map into an empty map, in any order that lists each key once, rebuilds the map. |
| CacheRecord.DecodeStringStringMapReadsBack | volleyex/src/main/java/com/android/volley/cache/DiskLruBasedCache.java:492-503 | On a stream cut anywhere, the map is either read back whole, with the rest of the stream left, or the read throws an IOException. |
| CacheRecord.EtagIn | volleyex/src/main/java/com/android/volley/cache/DiskLruBasedCache.java:363-366 | `readHeader` turns the empty etag into null and keeps every other etag. |
| CacheRecord.HeaderFor | volleyex/src/main/java/com/android/volley/cache/DiskLruBasedCache.java:338-347 | `new CacheHeader(key, entry)` copies every field of the entry and sets `size` to the payload length. |
| CacheRecord.ToCacheEntry | volleyex/src/main/java/com/android/volley/cache/DiskLruBasedCache.java:379-389 | `toCacheEntry(data)` copies every header field and attaches `data`. |
| CacheRecord.HeaderRoundTrip | volleyex/src/main/java/com/android/volley/cache/DiskLruBasedCache.java:354-412 | `readHeader` reads back what `writeHeader` wrote, whatever follows it. The result is normalised: an empty or null etag comes back null, and a null map comes back empty. |
| CacheRecord.DecodeHeaderReadsBack | volleyex/src/main/java/com/android/volley/cache/DiskLruBasedCache.java:354-374 | On a stream cut anywhere, a written header either reads back whole or throws an IOException. |
| CacheRecord.MagicChecked | volleyex/src/main/java/com/android/volley/cache/DiskLruBasedCache.java:354-360 | Unless the first four bytes are `CACHE_MAGIC` (0x20150306) as `writeInt` writes it, `readHeader` throws an IOException before it reads anything else. |
| CacheRecord.MagicNeedsFourBytes | volleyex/src/main/java/com/android/volley/cache/DiskLruBasedCache.java:354-356 | A stream shorter than the magic throws EOFException. |
| CacheRecord.RecordRoundTrip | volleyex/src/main/java/com/android/volley/cache/DiskLruBasedCache.java:127-200 | The record that `put` writes (header, then payload) is read back by `get` as the normalised entry. |
| CacheRecord.DecodeRecordReadsBack | volleyex/src/main/java/com/android/volley/cache/DiskLruBasedCache.java:135-139 | Once all of a record arrives, it decodes to the normalised entry whatever follows. Any shorter prefix throws an IOException. |
| CacheRecord.TruncatedRecordFails | volleyex/src/main/java/com/android/volley/cache/DiskLruBasedCache.java:135-139 | A strict prefix of a record never yields a partial entry. It always gives an IOException. |
| CacheRecord.Normalized | volleyex/src/main/java/com/android/volley/cache/DiskLruBasedCache.java:363-371 | What an entry reads back as: the data, dates and TTLs stay the same. An etag of "" becomes null, and a null map becomes empty. |
| CacheStreams.StreamToBytes | volleyex/src/main/java/com/android/volley/cache/DiskLruBasedCache.java:289-300 | The `while` loop of `read(bytes, pos, length - pos)` calls gives exactly `DecodeBytes`, for any chunk size the stream delivers. |
| CacheStreams.ReadString | volleyex/src/main/java/com/android/volley/cache/DiskLruBasedCache.java:474-478 | `readString` on a stream gives `DecodeString`: a long narrowed to an int, then that many bytes. |
| CacheStreams.ReadEntry | volleyex/src/main/java/com/android/volley/cache/DiskLruBasedCache.java:498-500 | One turn of the map loop reads a key string, then a value string. |
| CacheStreams.ReadStringStringMap | volleyex/src/main/java/com/android/volley/cache/DiskLruBasedCache.java:492-503 | The `for` loop reads the map `DecodeStringStringMap` describes. A negative size throws IllegalArgumentException, and a later key replaces an earlier one. |
| CacheStreams.ReadHeader | volleyex/src/main/java/com/android/volley/cache/DiskLruBasedCache.java:354-374 | `readHeader` reads the magic, the seven fields and the map one read at a time, with the result `DecodeHeader`. |
| CacheStreams.ReadHeaderFields | volleyex/src/main/java/com/android/volley/cache/DiskLruBasedCache.java:361-373 | After the magic, the field-by-field reads give `DecodeHeaderFields`, including the "" to null etag rule. |
| CacheStreams.Emit | volleyex/src/main/java/com/android/volley/cache/DiskLruBasedCache.java:428-433 | An output stream accepts a write exactly when it fits in its room, and then it holds the bytes written so far followed by the new ones. |
| CacheStreams.WriteStringStringMap | volleyex/src/main/java/com/android/volley/cache/DiskLruBasedCache.java:480-490 | The loop writes exactly `EncodeStringStringMap` (the size, then each entry in iteration order, or size 0 for null), or throws where that encoding would not fit. |
| CacheStreams.WriteHeader | volleyex/src/main/java/com/android/volley/cache/DiskLruBasedCache.java:395-412 | `writeHeader` returns true exactly when the stream accepts the whole encoded header, and the stream then holds it. On false, an IOException was caught: the stream holds the fields written whole before the one that failed (a string is one field with its length, and the response-header map is one field), a proper prefix of the encoded header, and its room is used up by exactly that much. |
| DiskCache.DiskLruBasedCache.CheckNotClosed | volleyex/src/main/java/com/android/volley/cache/DiskLruBasedCache.java:236-240 | IllegalStateException exactly when the store is null or closed. |
| DiskCache.DiskLruBasedCache.Initialize | volleyex/src/main/java/com/android/volley/cache/DiskLruBasedCache.java:90-103 | Opens a fresh store on the recovered slots when the directory exists or can be made and `open` succeeds. Otherwise it leaves `mDiskLruCache` as it was. |
| DiskCache.DiskLruBasedCache.Get | volleyex/src/main/java/com/android/volley/cache/DiskLruBasedCache.java:127-155 | Closed store: IllegalStateException. Open store: returns `GetResult` of the key's slot and leaves it as `GetSlots` says. The slot is removed after an IOException only. |
| DiskCache.DiskLruBasedCache.NameOf | volleyex/src/main/java/com/android/volley/cache/DiskLruBasedCache.java:129 | The slot name of a key is `getMD5` of its bytes: the low-nibble hex of its digest, 32 hex digits. |
| DiskCache.GetResult | volleyex/src/main/java/com/android/volley/cache/DiskLruBasedCache.java:127-155 | `get` returns an entry only when the lookup succeeded and the slot decoded to it. Otherwise it returns null. |
| DiskCache.GetSlots | volleyex/src/main/java/com/android/volley/cache/DiskLruBasedCache.java:141-143 | The slot is dropped exactly when an IOException was caught and the `remove` that follows succeeds. |
| DiskCache.DiskLruBasedCache.Put | volleyex/src/main/java/com/android/volley/cache/DiskLruBasedCache.java:161-200 | The key's slot holds the record (header keyed by the slot name, then the data) exactly when the edit opens, every write fits and `commit` succeeds. Otherwise every slot is as it was. |
| DiskCache.PutSlots | volleyex/src/main/java/com/android/volley/cache/DiskLruBasedCache.java:161-200 | `put` changes at most the key's slot, and only when it commits. |
| DiskCache.PutWrites | volleyex/src/main/java/com/android/volley/cache/DiskLruBasedCache.java:170-179 | The header write and then the data write both go through exactly when the whole record fits, and then the stream holds the record. |
| DiskCache.DiskLruBasedCache.Invalidate | volleyex/src/main/java/com/android/volley/cache/DiskLruBasedCache.java:111-121 | `get`, then, only if an entry was found, `put` of that entry with `softTtl` 0 (and `ttl` 0 on a full expire). |
| DiskCache.Expire | volleyex/src/main/java/com/android/volley/cache/DiskLruBasedCache.java:114-118 | Expiring sets `softTtl` to 0, sets `ttl` to 0 only on a full expire, and keeps every other field. |
| DiskCache.DiskLruBasedCache.Remove | volleyex/src/main/java/com/android/volley/cache/DiskLruBasedCache.java:206-218 | Closed store: IllegalStateException. Otherwise the key's slot is gone unless the store's `remove` throws, which is swallowed. |
| DiskCache.DiskLruBasedCache.Clear | volleyex/src/main/java/com/android/volley/cache/DiskLruBasedCache.java:224-233 | Deletes the store (the files stay if deleting throws), then runs `initialize` again. |
| DiskCache.DiskLruBasedCache.Close | volleyex/src/main/java/com/android/volley/cache/DiskLruBasedCache.java:273-284 | A null or closed store is left alone. Otherwise the store is closed and dropped, or kept open when closing throws. |
| DiskCache.PutThenGet | volleyex/src/main/java/com/android/volley/cache/DiskLruBasedCache.java:127-200 | After a committed `put`, `get` of the same slot returns the normalised entry and keeps the slot. |
| DiskCache.CollidingKeysShareEntry | volleyex/src/main/java/com/android/volley/cache/DiskLruBasedCache.java:127-200 | `get` never compares the key stored in the header with the key asked for. So after a committed `put` of one key, `get` of another key whose digest agrees in every low nibble returns the first key's entry. |
| DiskCache.PutTouchesOneSlot | volleyex/src/main/java/com/android/volley/cache/DiskLruBasedCache.java:161-200 | `put` leaves every other slot alone, and leaves all slots alone when it does not commit. |
| DiskCache.TruncatedSlotRemoved | volleyex/src/main/java/com/android/volley/cache/DiskLruBasedCache.java:141-143 | A slot holding part of a record gives null from `get` and is removed. |
| DiskCache.BadMagicRemoved | volleyex/src/main/java/com/android/volley/cache/DiskLruBasedCache.java:356-360 | A slot without the magic gives null from `get` and is removed. |
| DiskCache.NegativeSizeKept | volleyex/src/main/java/com/android/volley/cache/DiskLruBasedCache.java:144-146 | A header whose size is negative as an int makes `new byte[size]` throw a RuntimeException. `get` then returns null and keeps the slot. |
| DiskCache.InvalidateAbsent | volleyex/src/main/java/com/android/volley/cache/DiskLruBasedCache.java:111-121 | `invalidate` of a key with no slot changes nothing. |
| DiskCache.InvalidateThenGet | volleyex/src/main/java/com/android/volley/cache/DiskLruBasedCache.java:111-121 | After `invalidate` of a slot written by `put`, `get` returns the same data with `softTtl` 0 (and `ttl` 0 on a full expire). |
| Md5.ByteArrayToHex | volleyex/src/main/java/com/android/volley/utils/MD5Utils.java:63-72 | The index loop filling `char[bytes.length * 2]` returns `LowNibbleHex`, which uses the low nibble for both characters of every byte. |
| Md5.LowNibbleHexAt | volleyex/src/main/java/com/android/volley/utils/MD5Utils.java:66-67 | Both characters for byte `i` are the hex digit of `bytes[i] & 0x0f`. |
| Md5.LowNibbleHexDigits | volleyex/src/main/java/com/android/volley/utils/MD5Utils.java:32-33 | Every character of the name is one of `0-9a-f`. |
| Md5.LowNibbleHexCollides | volleyex/src/main/java/com/android/volley/utils/MD5Utils.java:66 | Two different digests get the same name. |
| Md5.Hex | volleyex/src/main/java/com/android/volley/utils/MD5Utils.java:63-72 | The intended conversion: two characters per byte, high nibble first. |
| Md5.HexInjective | volleyex/src/main/java/com/android/volley/utils/MD5Utils.java:63-72 | The intended conversion keeps every byte: different digests get different names. |
| Md5.MD5Encode | volleyex/src/main/java/com/android/volley/utils/MD5Utils.java:46-57 | Null stays null. Otherwise it returns the digest of the bytes. |
| Md5.GetMD5 | volleyex/src/main/java/com/android/volley/utils/MD5Utils.java:74-79 | Null stays null. Otherwise it returns `byteArrayToHex` of the digest as written (`LowNibbleHex`): 32 hex digits, both digits of each byte taken from its low nibble. |
| Md5.GetMD5SameName | volleyex/src/main/java/com/android/volley/utils/MD5Utils.java:74-79 | Two byte arrays get the same name exactly when their digests agree in the low nibble of every byte, so different digests can share a name. |
| Md5.GetMD5OfString | volleyex/src/main/java/com/android/volley/utils/MD5Utils.java:81-90 | A null or empty string gives null. Otherwise it returns the name of the string's bytes in the given encoding, or in the platform default when the encoding is null, which always succeeds. An unknown named encoding throws UnsupportedEncodingException. |
| Requests.ImageRequestMap.Get | volleyex/src/main/java/com/android/volley/image/ImageRequestMap.java:45-47 | The view's request, or null exactly when the view has none. |
| Requests.ImageRequestMap.Put | volleyex/src/main/java/com/android/volley/image/ImageRequestMap.java:49-55 | Installs the value and returns the previous request. That request is now cancelled, exactly once, even when it is the new value itself. |
| Requests.ImageRequestMap.EntryRemoved | volleyex/src/main/java/com/android/volley/image/ImageRequestMap.java:57-59 | The removed request is cancelled once. |
| Requests.ImageRequestMap.Clear | volleyex/src/main/java/com/android/volley/image/ImageRequestMap.java:61-63 | Empties the map without cancelling. |
| Requests.ImageRequestMap.EvictAll | volleyex/src/main/java/com/android/volley/image/ImageRequestMap.java:65-71 | Every request held is cancelled, with its delivered flag untouched, and then the map is empty. |
| Requests.ImageRequestMap.Size | volleyex/src/main/java/com/android/volley/image/ImageRequestMap.java:77-79 | The number of views in the map, zero exactly when it is empty. |
| ArrayLoader.ArrayImageLoader.constructor | volleyex/src/main/java/com/android/volley/image/ArrayImageLoader.java:109-121 | Empty, distinct registries, an empty cache, no loaded position, and not paused. |
| ArrayLoader.ArrayImageLoader.Placeholder | volleyex/src/main/java/com/android/volley/image/ArrayImageLoader.java:158-165 | The default resource when it is not 0, and nothing otherwise. |
| ArrayLoader.ArrayImageLoader.LoadBitmap | volleyex/src/main/java/com/android/volley/image/ArrayImageLoader.java:157-196 | Placeholder for an unloaded position. An empty URL changes nothing else. Otherwise the view is tagged and then either shows the cached bitmap, or gets a fresh request. That request goes to the waiting registry when paused, or to the current registry and the queue otherwise, and the request it replaces is cancelled. The only request it may change is the one it replaces in the registry it puts into, so a paused call leaves the view's current request as it is. Whether the view is shown stays the same. |
| ArrayLoader.ArrayImageLoader.Issue | volleyex/src/main/java/com/android/volley/image/ArrayImageLoader.java:185-195 | On a cache miss, the new request goes to the waiting registry when paused, or to the current registry and the queue otherwise. The only request it may change is the one it replaces in that registry. |
| ArrayLoader.ArrayImageLoader.Pause | volleyex/src/main/java/com/android/volley/image/ArrayImageLoader.java:199-201 | Sets the paused flag and nothing else. |
| ArrayLoader.ArrayImageLoader.Resume | volleyex/src/main/java/com/android/volley/image/ArrayImageLoader.java:203-219 | Nothing unless paused with requests waiting, so a paused loader with nothing waiting stays paused. Otherwise the current registry becomes old current + waiting, the waiting requests are queued in iteration order, the requests they replace are cancelled, and the loader is emptied of waiting requests and unpaused. The only requests it may change are the current requests of the replayed views. |
| ArrayLoader.ArrayImageLoader.Replay | volleyex/src/main/java/com/android/volley/image/ArrayImageLoader.java:210-216 | The loop over the waiting entries yields current = old current + waiting and queue = old queue + those requests in order, with every replaced request cancelled. The only requests it may change are the ones it replaces. |
| ArrayLoader.MergeAll | volleyex/src/main/java/com/android/volley/image/ArrayImageLoader.java:210-212 | Putting every waiting entry, in any iteration order, gives the map union. |
| ArrayLoader.DispatchedAll | volleyex/src/main/java/com/android/volley/image/ArrayImageLoader.java:212 | The queue receives each waiting request once, and nothing else. |
| ArrayLoader.WaitingNotReplaced | volleyex/src/main/java/com/android/volley/image/ArrayImageLoader.java:189-219 | In a valid loader every current request is queued and no waiting one is. So no waiting request is among the current requests that `resume` replaces, and `resume` leaves the waiting requests as they were. |
| ArrayLoader.ArrayImageLoader.Destroy | volleyex/src/main/java/com/android/volley/image/ArrayImageLoader.java:222-226 | Every current request is cancelled, with its delivered flag untouched, and the registry is emptied. The memory cache and the loaded positions are cleared, and the waiting registry stays. |
| ArrayLoader.ArrayImageLoader.OnResponse | volleyex/src/main/java/com/android/volley/image/ArrayImageLoader.java:237-253 | The response is cached if its URL is new (a null bitmap throws NullPointerException there). Only a view still tagged with the URL, shown, and with a non-null bitmap displays it and has its position marked loaded. A missing position tag makes that throw NullPointerException. The view's tags and whether it is shown stay the same. |
| PauseOnScroll.AbsOnScrollStateChanged | volleyex/src/main/java/com/android/volley/image/AbsListViewPauseOnScrollListener.java:62-88 | With neither flag set there is no call and no notification. IDLE resumes. TOUCH_SCROLL pauses if `pauseOnScroll`, else resumes. FLING pauses if `pauseOnFling`, else resumes. Other states make no call. The external listener is told exactly when it exists and a flag is set. |
| PauseOnScroll.AbsOnScroll | volleyex/src/main/java/com/android/volley/image/AbsListViewPauseOnScrollListener.java:91-96 | `onScroll` is forwarded exactly when there is an external listener. |
| PauseOnScroll.DefaultAbsListViewListener | volleyex/src/main/java/com/android/volley/image/AbsListViewPauseOnScrollListener.java:57-59 | The two-argument constructor sets `pauseOnScroll` false and `pauseOnFling` true. |
| PauseOnScroll.RecyclerOnScrollStateChanged | volleyex/src/main/java/com/android/volley/image/RecyclerViewPauseOnScrollListener.java:45-68 | The same choice for IDLE, DRAGGING and SETTLING, nothing for other states, and nothing at all when neither flag is set. |
| PauseOnScroll.DefaultRecyclerViewListener | volleyex/src/main/java/com/android/volley/image/RecyclerViewPauseOnScrollListener.java:40-42 | The one-argument constructor sets `pauseOnScroll` false and `pauseOnFling` true. |
| PauseOnScroll.LoaderCallFor | volleyex/src/main/java/com/android/volley/image/AbsListViewPauseOnScrollListener.java:63-84 | Pause exactly for a pausing state whose flag is set. Resume exactly when some flag is set and the state is idle or a state whose flag is clear. |
| PauseOnScroll.ListenersAgree | volleyex/src/main/java/com/android/volley/image/RecyclerViewPauseOnScrollListener.java:45-68 | With the same flags, both listeners make the same call for the same state. |
| PauseOnScroll.DefaultPausesOnFling | volleyex/src/main/java/com/android/volley/image/AbsListViewPauseOnScrollListener.java:57-84 | With the default flags, the loader ends up paused exactly when the list flings (or settles), or when it was paused with nothing waiting, since `resume()` then returns without clearing the flag. |
| PauseOnScroll.IdleResumes | volleyex/src/main/java/com/android/volley/image/ArrayImageLoader.java:203-206 | With some flag set, coming to rest leaves the loader paused exactly when it was paused with nothing waiting. A request made after that goes to the waiting registry. |
| PauseOnScroll.NoFlagsNoEffect | volleyex/src/main/java/com/android/volley/image/AbsListViewPauseOnScrollListener.java:63-66 | With neither flag set, neither listener changes whether the loader is paused. |
| PauseOnScroll.Apply | volleyex/src/main/java/com/android/volley/image/AbsListViewPauseOnScrollListener.java:66-84 | The call made on a real loader: `pause()` leaves the registries and the queue alone, and the paused flag afterwards is `PausedAfter` of the call, the old flag and whether anything was waiting. `pause()` and no call leave every current and waiting request as it was. |
| PauseOnScroll.AbsScrollStateChanged | volleyex/src/main/java/com/android/volley/image/AbsListViewPauseOnScrollListener.java:62-88 | `onScrollStateChanged` run against a loader: it keeps the loader valid, tells the external listener as `AbsOnScrollStateChanged` says, and leaves the loader paused as `PausedAfter` says. |
| PauseOnScroll.RecyclerScrollStateChanged | volleyex/src/main/java/com/android/volley/image/RecyclerViewPauseOnScrollListener.java:45-68 | The same for the RecyclerView listener. |
| SingleLoader.SingleImageLoader.constructor | volleyex/src/main/java/com/android/volley/image/SingleImageLoader.java:63-71 | No URL and no request yet, a one-day TTL, and no cross fade. |
| SingleLoader.SingleImageLoader.Load | volleyex/src/main/java/com/android/volley/image/SingleImageLoader.java:117-141 | A null or empty URL, or the URL of an undelivered current request, changes nothing. Otherwise the old request is cancelled, the URL becomes current with a fresh request, `onStart` reaches the listener, and the request is queued. Every earlier request of the loader stays cancelled. |
| SingleLoader.SingleImageLoader.Live | volleyex/src/main/java/com/android/volley/image/SingleImageLoader.java:126-131 | At most the current request of the loader is not cancelled. |
| SingleLoader.SingleImageLoader.OnResponse | volleyex/src/main/java/com/android/volley/image/SingleImageLoader.java:94-106 | A response for another URL changes nothing. For the current URL the view shows the bitmap and the listener gets `onSuccess`. |
| SingleLoader.SingleImageLoader.GetRequestUrl | volleyex/src/main/java/com/android/volley/image/SingleImageLoader.java:79-81 | The URL is set exactly when a request has been made. |
| Schemes.OfUri | volleyex/src/main/java/com/android/volley/image/ImageScheme.java:54-63 | UNKNOWN for null. Otherwise returns the first scheme, in declaration order, whose prefix starts the lowercased URI. |
| Schemes.FirstBelonging | volleyex/src/main/java/com/android/volley/image/ImageScheme.java:56-60 | The position of the first scheme that matches: no earlier one matches, and the one found does. |
| Schemes.IsHttpScheme | volleyex/src/main/java/com/android/volley/image/ImageScheme.java:68-71 | True exactly when `ofUri` gives HTTP or HTTPS, and false for null. |
| Schemes.Wrap | volleyex/src/main/java/com/android/volley/image/ImageScheme.java:78-80 | `wrap(p)` belongs to its scheme and ends in `p` after the prefix. |
| Schemes.Crop | volleyex/src/main/java/com/android/volley/image/ImageScheme.java:83-88 | Throws IllegalArgumentException (with its message) when the URI does not belong, and NullPointerException for null. Otherwise removes `prefix.length` characters of the original string, whose lowercase is the prefix. |
| Schemes.CropWrap | volleyex/src/main/java/com/android/volley/image/ImageScheme.java:78-88 | `crop(wrap(p)) == p` for every scheme and path. |
| Schemes.WrapCrop | volleyex/src/main/java/com/android/volley/image/ImageScheme.java:78-88 | `wrap(crop(u))` is `u` up to the case of its prefix, and exactly `u` when the prefix is already lowercase. |
| Schemes.PrefixFree | volleyex/src/main/java/com/android/volley/image/ImageScheme.java:38-46 | No scheme's prefix starts another scheme's wrapped URI. |
| Schemes.OfUriWrap | volleyex/src/main/java/com/android/volley/image/ImageScheme.java:54-80 | `ofUri(s.wrap(p)) == s` for every scheme, UNKNOWN included. |
| Schemes.OfUriIgnoresCase | volleyex/src/main/java/com/android/volley/image/ImageScheme.java:73-75 | `ofUri` gives the same scheme for a URI and for its lowercase. |
| Schemes.UpperCaseHttp | volleyex/src/main/java/com/android/volley/image/ImageScheme.java:73-88 | "HTTP://x" is HTTP (not HTTPS), and `crop` gives "x". |
| Schemes.UnknownScheme | volleyex/src/main/java/com/android/volley/image/ImageScheme.java:54-63 | A null URI, or one of no listed scheme, is UNKNOWN. |

## Left out

- The journal behind `DiskLruCache` (its files, LRU eviction by size, and the app version check) is reduced to a map of slots and a closed flag.
- `size()` and `flush()` of DiskLruBasedCache only pass through to the journal, so they are not modelled.
- The constants `DEFAULT_DISK_USAGE_BYTES`, `DEFAULT_KEY_VALUE_COUNT` and `DEFAULT_DISK_VALUE_INDEX` only configure the journal.
- Directory creation, opening the journal, and every IOException of the store are boolean parameters.
- A write the store half-accepts is not modelled. A write either fits in the stream's `room` or throws, and `abortUnlessCommitted` discards everything written.
- A `delete` that throws leaves all the files. Partial deletion is not modelled.
- DiskCache.DiskLruBasedCache.Put: keys and payloads are byte sequences, never null. In the code, a null key makes `key.getBytes()` throw NullPointerException before the `try`, so `put` throws it. A null entry or `entry.data` throws NullPointerException inside the `try`, where it is caught and the edit is aborted.
- DiskCache.DiskLruBasedCache.Get: `get` removes the slot only after an IOException, which is what the code does. Negative sizes and counts raise RuntimeExceptions, which `get` catches without removing.
- CacheStreams.ReadHeader: `readHeader` is split into the magic check and `ReadHeaderFields` to keep each proof small. Together they read what `readHeader` reads, in the same order.
- Strings are taken to be their UTF-8 bytes, and `String.intern()` has no observable effect here.
- Schemes.ToLower: `toLowerCase(Locale.US)` is modelled on ASCII letters only. The few non-ASCII letters whose lowercase is longer or ASCII are not modelled.
- Md5.ByteArrayToHex: the `bytes.length * 2` overflow of a huge array is not modelled. The method only ever sees 16-byte digests.
- The MD5 digest itself and the thread-local `MessageDigest` are a parameter.
- Cross fading (`CrossFadeDrawable` and its animation) is modelled as showing the bitmap. Both branches end with the view showing the bitmap.
- The decode config, maximum width, maximum height, scale type and TTL given to each `ImageRequest` are not modelled. Requests keep only their URL, their target and their cancel and delivered flags.
- The other `load` overloads of SingleImageLoader only compute those sizes and defaults before calling the modelled `load`.
- The `LoadListener` callbacks of ArrayImageLoader (`onSuccess`, and the error and finish listeners) are not modelled.
- The size bound of the `LruCache` memory cache is not modelled. The cache is a map that never evicts on its own.
- `synchronized` and every other thread interaction are not modelled. Each operation runs alone.
- ArrayLoader.ArrayImageLoader.Resume: `mWaitingRequestMap.clear()` runs after the whole replay loop. No other code observes the registries in between, so the model expresses the loop's effect as one replay.
- SingleLoader.SingleImageLoader.Load: the contract does not fix the relative order of the `onStart` call and the queue insertion, because they touch different objects.
- The debug logging of `resume` (`VolleyLog.DEBUG`) has no effect on the state modelled.
- Volley's request dispatch and the network are not modelled. A response is delivered by calling `OnResponse` directly.

## Findings

| source | as written | input that shows it | evidently intended | confidence | as-written member | corrected member |
|---|---|---|---|---|---|---|
| volleyex/src/main/java/com/android/volley/utils/MD5Utils.java:66 | `hexDigits[bytes[i] & 0xf0 >> 4]`: `>>` binds tighter than `&`, so this is `bytes[i] & 0x0f`, the low nibble again | the digests `01 00 … 00` and `11 00 … 00` both become `11000000000000000000000000000000` | `(bytes[i] & 0xf0) >> 4`, the high nibble, so that the name keeps all 128 bits of the digest | not executed | Md5.LowNibbleHexCollides | Md5.HexInjective |
