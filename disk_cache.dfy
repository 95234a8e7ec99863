/** DiskLruBasedCache: Volley's `Cache` kept in a journaled LRU store on disk.  Each
    entry lives in the slot named by the MD5 hex of its key's bytes, as one record
    (header, then payload).

    The store is modelled as its slots and whether it is closed; every way it can fail
    is a parameter of the operation that meets it. */
module DiskCache {
  import opened Lang
  import opened CacheRecord
  import opened CacheStreams
  import opened Md5

  /** The slots of a store: slot name to the bytes of its one value. */
  type Slots = map<string, seq<uint8>>

  /** The journaled store (`DiskLruCache`), reduced to its slots and its closed flag. */
  class DiskLruCache {
    var slots: Slots
    var closed: bool

    /** `DiskLruCache.open`: the slots the journal recovers from the directory. */
    constructor (recovered: Slots)
      ensures slots == recovered && !closed
    {
      slots := recovered;
      closed := false;
    }

    function Lookup(name: string): (r: Option<seq<uint8>>)
      reads this
      ensures r.Some? <==> name in slots
      ensures r.Some? ==> r.value == slots[name]
    {
      if name in slots then Some(slots[name]) else None
    }

    /** `remove(name)`; an IOException (`fails`) leaves the slot. */
    method Remove(name: string, fails: bool)
      modifies this
      ensures slots == if fails then old(slots) else old(slots) - {name}
      ensures closed == old(closed)
    {
      if !fails {
        slots := slots - {name};
      }
    }

    /** `Editor.commit()`: the bytes written through the editor become the slot's value. */
    method Commit(name: string, bytes: seq<uint8>)
      modifies this
      ensures slots == old(slots)[name := bytes]
      ensures closed == old(closed)
    {
      slots := slots[name := bytes];
    }

    /** `delete()`: closes the store, then deletes the directory; an IOException while
        deleting (`fails`) leaves the files where they are. */
    method Delete(fails: bool)
      modifies this
      ensures closed
      ensures slots == if fails then old(slots) else map[]
    {
      closed := true;
      if !fails {
        slots := map[];
      }
    }

    /** `close()`; an IOException (`fails`) leaves the store open. */
    method Close(fails: bool) returns (ok: bool)
      modifies this
      ensures ok == !fails
      ensures closed == (old(closed) || !fails)
      ensures slots == old(slots)
    {
      if !fails {
        closed := true;
      }
      return !fails;
    }
  }

  /** `IllegalStateException` from `checkNotClosed`. */
  datatype StateError = IllegalState

  /** The ways the store can fail `get`: its lookup throws an IOException, or so does
      the `remove` that follows a failed read. */
  datatype GetFaults = GetFaults(lookupFails: bool, removeFails: bool)

  /** The ways the store can fail `put`: another edit of the slot is open (`edit` returns
      null), the output stream accepts only `room` bytes, or `commit` throws. */
  datatype PutFaults = PutFaults(editBusy: bool, room: nat, commitFails: bool)

  /** The value of slot `name`, if it has one. */
  function Slot(slots: Slots, name: string): (r: Option<seq<uint8>>)
    ensures r.Some? <==> name in slots
  {
    if name in slots then Some(slots[name]) else None
  }

  // ---------------------------------------------------------------------
  // get

  /** What the `try` block of `get` makes of a slot: null on a miss, else the record
      read from it, or what the read throws. */
  function ReadSlot(slot: Option<seq<uint8>>): (r: Result<Option<Entry>, Error>)
    ensures slot.None? ==> r == Ok(None)
    ensures slot.Some? ==> (r.Ok? <==> DecodeRecord(slot.value).Ok?)
    ensures slot.Some? && r.Ok? ==> r.value == Some(DecodeRecord(slot.value).value)
    ensures slot.Some? && r.Err? ==> r.error == DecodeRecord(slot.value).error
  {
    match slot
    case None => Ok(None)
    case Some(s) =>
      match DecodeRecord(s)
      case Ok(e) => Ok(Some(e))
      case Err(x) => Err(x)
  }

  /** `get` removes the slot after an IOException, from the lookup or from the read;
      any other exception leaves it. */
  predicate GetRemoves(slot: Option<seq<uint8>>, faults: GetFaults) {
    faults.lookupFails || (ReadSlot(slot).Err? && IsIOException(ReadSlot(slot).error))
  }

  /** What `get` returns: the entry read, or null after a miss or any exception. */
  function GetResult(slot: Option<seq<uint8>>, faults: GetFaults): (r: Option<Entry>)
    ensures r.Some? ==> !faults.lookupFails && ReadSlot(slot) == Ok(r)
    ensures r.None? && !faults.lookupFails && slot.Some? ==> ReadSlot(slot).Err? || ReadSlot(slot) == Ok(None)
  {
    if faults.lookupFails then None
    else match ReadSlot(slot)
      case Ok(found) => found
      case Err(_) => None
  }

  /** The slots after `get` of slot `name`. */
  function GetSlots(slots: Slots, name: string, faults: GetFaults): (r: Slots)
    ensures GetRemoves(Slot(slots, name), faults) && !faults.removeFails ==> r == slots - {name}
    ensures !GetRemoves(Slot(slots, name), faults) || faults.removeFails ==> r == slots
  {
    if GetRemoves(Slot(slots, name), faults) && !faults.removeFails then slots - {name} else slots
  }

  // ---------------------------------------------------------------------
  // put

  /** `put` commits its record exactly when the edit opens, header and payload both fit
      and the commit goes through. */
  predicate PutCommits(record: seq<uint8>, faults: PutFaults) {
    !faults.editBusy && |record| <= faults.room && !faults.commitFails
  }

  /** What `put(key, e)` writes into slot `name`: the header, keyed by the name itself,
      then the payload. */
  function PutRecord(name: string, e: Entry, order: seq<Bytes>): seq<uint8>
    requires |name| == 32 && forall j :: 0 <= j < 32 ==> IsHexDigit(name[j])
    requires Orders(e.responseHeaders, order)
  {
    EncodeRecord(NameBytes(name), e, order)
  }

  /** The slots after `put` into slot `name`: the record, or the slots as they were. */
  function PutSlots(slots: Slots, name: string, e: Entry, order: seq<Bytes>, faults: PutFaults): (r: Slots)
    requires |name| == 32 && forall j :: 0 <= j < 32 ==> IsHexDigit(name[j])
    requires Orders(e.responseHeaders, order)
    ensures PutCommits(PutRecord(name, e, order), faults) ==> r == slots[name := PutRecord(name, e, order)]
    ensures !PutCommits(PutRecord(name, e, order), faults) ==> r == slots
  {
    var record := PutRecord(name, e, order);
    if PutCommits(record, faults) then slots[name := record] else slots
  }

  /** On a fresh output stream with room for `room` bytes, the header and then the
      payload are both accepted exactly when the whole record fits, and then the stream
      holds the record. */
  lemma PutWrites(record: seq<uint8>, header: seq<uint8>, data: seq<uint8>, room: nat)
    requires record == header + data
    ensures var os := Emit(Sink([], room), header);
      (os.Some? && Emit(os.value, data).Some?) <==> |record| <= room
    ensures var os := Emit(Sink([], room), header);
      os.Some? && Emit(os.value, data).Some? ==> Emit(os.value, data).value.written == record
  {
  }

  // ---------------------------------------------------------------------
  // invalidate

  /** The entry `invalidate` puts back: soft-expired, and fully expired on request; the
      data, etag, dates and headers stay. */
  function Expire(e: Entry, fullExpire: bool): (r: Entry)
    ensures r.softTtl == 0 && r.ttl == (if fullExpire then 0 else e.ttl)
    ensures r.data == e.data && r.etag == e.etag && r.serverDate == e.serverDate
    ensures r.lastModified == e.lastModified && r.responseHeaders == e.responseHeaders
  {
    e.(softTtl := 0, ttl := if fullExpire then 0 else e.ttl)
  }

  /** An iteration order for every map: a HashMap's entry set lists each key once. */
  ghost predicate IteratesAll(iteration: Headers -> seq<Bytes>) {
    forall h: Headers :: Enumerates(iteration(h), h.Keys)
  }

  /** The iteration order of an entry's possibly null header map. */
  function OrderOf(iteration: Headers -> seq<Bytes>, e: Entry): (order: seq<Bytes>)
    requires IteratesAll(iteration)
    ensures Orders(e.responseHeaders, order)
  {
    match e.responseHeaders
    case None => []
    case Some(h) => iteration(h)
  }

  /** The slots after `invalidate(key, fullExpire)` of slot `name`: `get`, then, when it
      found an entry, `put` of the expired entry. */
  function InvalidateSlots(slots: Slots, name: string, fullExpire: bool, iteration: Headers -> seq<Bytes>,
                           getFaults: GetFaults, putFaults: PutFaults): Slots
    requires |name| == 32 && forall j :: 0 <= j < 32 ==> IsHexDigit(name[j])
    requires IteratesAll(iteration)
  {
    var found := GetResult(Slot(slots, name), getFaults);
    var afterGet := GetSlots(slots, name, getFaults);
    if found.None? then afterGet
    else
      var e := Expire(found.value, fullExpire);
      PutSlots(afterGet, name, e, OrderOf(iteration, e), putFaults)
  }

  // ---------------------------------------------------------------------
  // What the operations promise of one another

  /** What `put` commits, `get` reads back normalised: a null etag or map as written
      comes back as "" read as null, and as the empty map; the slot stays. */
  lemma PutThenGet(slots: Slots, name: string, e: Entry, order: seq<Bytes>, putFaults: PutFaults, getFaults: GetFaults)
    requires |name| == 32 && forall j :: 0 <= j < 32 ==> IsHexDigit(name[j])
    requires Orders(e.responseHeaders, order)
    requires PutCommits(PutRecord(name, e, order), putFaults) && !getFaults.lookupFails
    ensures var after := PutSlots(slots, name, e, order, putFaults);
      GetResult(Slot(after, name), getFaults) == Some(Normalized(e)) && GetSlots(after, name, getFaults) == after
  {
    RecordRoundTrip(NameBytes(name), e, order);
  }

  /** `get` never compares the key kept in the header with the key asked for, so a key
      whose digest agrees with another's in every low nibble gets the slot name of the
      other and reads back the entry `put` stored for it. */
  lemma CollidingKeysShareEntry(md5: Bytes -> Digest, a: Bytes, b: Bytes, slots: Slots, e: Entry,
                                order: seq<Bytes>, putFaults: PutFaults, getFaults: GetFaults)
    requires forall i :: 0 <= i < 16 ==> md5(a)[i] % 16 == md5(b)[i] % 16
    requires Orders(e.responseHeaders, order)
    requires PutCommits(PutRecord(GetMD5(md5, Some(a)).value, e, order), putFaults) && !getFaults.lookupFails
    ensures GetMD5(md5, Some(a)) == GetMD5(md5, Some(b))
    ensures var after := PutSlots(slots, GetMD5(md5, Some(a)).value, e, order, putFaults);
      GetResult(Slot(after, GetMD5(md5, Some(b)).value), getFaults) == Some(Normalized(e))
  {
    GetMD5SameName(md5, a, b);
    PutThenGet(slots, GetMD5(md5, Some(a)).value, e, order, putFaults, getFaults);
  }

  /** A `put` that does not commit leaves every slot, and `put` into one slot leaves the
      others whether it commits or not. */
  lemma PutTouchesOneSlot(slots: Slots, name: string, e: Entry, order: seq<Bytes>, faults: PutFaults, other: string)
    requires |name| == 32 && forall j :: 0 <= j < 32 ==> IsHexDigit(name[j])
    requires Orders(e.responseHeaders, order)
    requires other != name || !PutCommits(PutRecord(name, e, order), faults)
    ensures Slot(PutSlots(slots, name, e, order, faults), other) == Slot(slots, other)
  {
  }

  /** A slot holding only part of a record is an IOException for `get`: null, and the
      slot is removed (unless the removal itself fails). */
  lemma TruncatedSlotRemoved(name: string, e: Entry, order: seq<Bytes>, t: seq<uint8>, faults: GetFaults)
    requires |name| == 32 && forall j :: 0 <= j < 32 ==> IsHexDigit(name[j])
    requires Orders(e.responseHeaders, order)
    requires t < PutRecord(name, e, order)
    ensures GetRemoves(Some(t), faults) && GetResult(Some(t), faults) == None
  {
    TruncatedRecordFails(NameBytes(name), e, order, t);
  }

  /** A slot that does not begin with the magic number is an IOException for `get`. */
  lemma BadMagicRemoved(s: seq<uint8>, faults: GetFaults)
    requires 4 <= |s| && s[..4] != EncodeInt(CACHE_MAGIC)
    ensures GetRemoves(Some(s), faults) && GetResult(Some(s), faults) == None
  {
    MagicChecked(s);
  }

  /** A header whose size is negative as an int makes `new byte[size]` throw a
      RuntimeException: `get` returns null and leaves the slot. */
  lemma NegativeSizeKept(h: CacheHeader, order: seq<Bytes>, more: seq<uint8>, faults: GetFaults)
    requires Orders(h.responseHeaders, order)
    requires ToInt32(h.size) < 0 && !faults.lookupFails
    ensures !GetRemoves(Some(EncodeHeader(h, order) + more), faults)
    ensures GetResult(Some(EncodeHeader(h, order) + more), faults) == None
  {
    HeaderRoundTrip(h, order, more);
  }

  /** The entry read back from a normalised entry is itself, and expiring commutes with
      normalising. */
  lemma NormalizedExpire(e: Entry, fullExpire: bool)
    ensures Normalized(Expire(Normalized(e), fullExpire)) == Expire(Normalized(e), fullExpire)
  {
  }

  /** `invalidate` of a key with nothing in its slot changes nothing. */
  lemma InvalidateAbsent(slots: Slots, name: string, fullExpire: bool, iteration: Headers -> seq<Bytes>,
                         getFaults: GetFaults, putFaults: PutFaults)
    requires |name| == 32 && forall j :: 0 <= j < 32 ==> IsHexDigit(name[j])
    requires IteratesAll(iteration)
    requires name !in slots && !getFaults.lookupFails
    ensures InvalidateSlots(slots, name, fullExpire, iteration, getFaults, putFaults) == slots
  {
  }

  /** After `invalidate` of a slot holding what `put(key, e)` wrote, `get` reads back the
      same entry with `softTtl` 0, and `ttl` 0 too on a full expire; the data and etag
      are those read before. */
  lemma InvalidateThenGet(slots: Slots, name: string, e: Entry, order: seq<Bytes>, fullExpire: bool,
                          iteration: Headers -> seq<Bytes>, getFaults: GetFaults, putFaults: PutFaults)
    requires |name| == 32 && forall j :: 0 <= j < 32 ==> IsHexDigit(name[j])
    requires Orders(e.responseHeaders, order) && IteratesAll(iteration)
    requires name in slots && slots[name] == PutRecord(name, e, order) && !getFaults.lookupFails
    requires var x := Expire(Normalized(e), fullExpire); PutCommits(PutRecord(name, x, OrderOf(iteration, x)), putFaults)
    ensures var r := GetResult(Slot(InvalidateSlots(slots, name, fullExpire, iteration, getFaults, putFaults), name), getFaults);
      r == Some(Expire(Normalized(e), fullExpire)) && r.value.data == e.data && r.value.softTtl == 0
  {
    RecordRoundTrip(NameBytes(name), e, order);
    assert GetResult(Slot(slots, name), getFaults) == Some(Normalized(e));
    assert GetSlots(slots, name, getFaults) == slots;
    var x := Expire(Normalized(e), fullExpire);
    PutThenGet(slots, name, x, OrderOf(iteration, x), putFaults, getFaults);
    NormalizedExpire(e, fullExpire);
  }

  // ---------------------------------------------------------------------
  // The cache

  class DiskLruBasedCache {
    /** `mDiskLruCache`: null until `initialize` opens it, and again after `close`. */
    var store: DiskLruCache?

    /** `MessageDigest` MD5. */
    const md5: Bytes -> Digest

    /** The order in which a HashMap's entry set is iterated. */
    const iteration: Headers -> seq<Bytes>

    /** `DiskLruBasedCache(rootDirectory, maxCacheSizeInBytes, appVersion)`: nothing is
        opened until `initialize`. */
    constructor (md5: Bytes -> Digest, iteration: Headers -> seq<Bytes>)
      ensures store == null && this.md5 == md5 && this.iteration == iteration
    {
      this.md5 := md5;
      this.iteration := iteration;
      store := null;
    }

    /** `checkNotClosed`: the store is open. */
    predicate IsOpen()
      reads this, store
    {
      store != null && !store.closed
    }

    /** `checkNotClosed`: IllegalStateException when the store is null or closed. */
    function CheckNotClosed(): (r: Result<(), StateError>)
      reads this, store
      ensures r.Ok? <==> IsOpen()
    {
      if store == null || store.closed then Err(IllegalState) else Ok(())
    }

    /** `MD5Utils.getMD5(key.getBytes())`: the slot name of a key. */
    function NameOf(key: Bytes): (name: string)
      ensures name == LowNibbleHex(md5(key))
      ensures |name| == 32 && forall j :: 0 <= j < 32 ==> IsHexDigit(name[j])
    {
      GetMD5(md5, Some(key)).value
    }

    /** `initialize`: when the directory exists or can be made, open the store on it; a
        failure of either leaves `mDiskLruCache` as it was. */
    method Initialize(dirReady: bool, openFails: bool, recovered: Slots)
      modifies this
      ensures !dirReady || openFails ==> store == old(store)
      ensures dirReady && !openFails ==> store != null && fresh(store) && store.slots == recovered && !store.closed
    {
      if !dirReady {
        return;
      }
      if openFails {
        return;
      }
      store := new DiskLruCache(recovered);
    }

    /** `remove(key)`; the store's IOException is swallowed. */
    method Remove(key: Bytes, fails: bool) returns (r: Result<(), StateError>)
      modifies store
      ensures store == old(store)
      ensures r == old(CheckNotClosed())
      ensures !old(IsOpen()) ==> store != null ==> unchanged(store)
      ensures old(IsOpen()) ==> !store.closed && store.slots == if fails then old(store.slots) else old(store.slots) - {NameOf(key)}
    {
      r := CheckNotClosed();
      if r.Err? {
        return;
      }
      var name := NameOf(key);
      store.Remove(name, fails);
    }

    /** `get(key)`: the entry in the key's slot, or null.  An IOException from the lookup
        or from reading the record removes the slot; a RuntimeException (a negative size
        or count) leaves it.  `chunk` is the most one `read` call delivers. */
    method Get(key: Bytes, faults: GetFaults, chunk: nat) returns (r: Result<Option<Entry>, StateError>)
      requires 0 < chunk
      modifies store
      ensures store == old(store)
      ensures !old(IsOpen()) ==> r == Err(IllegalState) && (store != null ==> unchanged(store))
      ensures old(IsOpen()) ==>
        r == Ok(GetResult(Slot(old(store.slots), NameOf(key)), faults)) &&
        !store.closed && store.slots == GetSlots(old(store.slots), NameOf(key), faults)
    {
      var open := CheckNotClosed();
      if open.Err? {
        return Err(IllegalState);
      }
      var name := NameOf(key);
      if faults.lookupFails {
        var _ := Remove(key, faults.removeFails);
        return Ok(None);
      }
      var snapshot := store.Lookup(name);
      if snapshot.None? {
        return Ok(None);
      }
      var input := snapshot.value;
      var header := ReadHeader(input, chunk);
      if header.Err? {
        if IsIOException(header.error) {
          var _ := Remove(key, faults.removeFails);
        }
        return Ok(None);
      }
      var data := StreamToBytes(header.value.rest, ToInt32(header.value.value.size), chunk);
      if data.Err? {
        if IsIOException(data.error) {
          var _ := Remove(key, faults.removeFails);
        }
        return Ok(None);
      }
      return Ok(Some(ToCacheEntry(header.value.value, data.value.value)));
    }

    /** `put(key, entry)`: through an editor on the key's slot, the header (keyed by the
        slot name, `size = entry.data.length`), then `entry.data`, then `commit`.  Any
        failure is swallowed and `abortUnlessCommitted` leaves the slot as it was. */
    method Put(key: Bytes, e: Entry, faults: PutFaults) returns (r: Result<(), StateError>)
      requires IteratesAll(iteration)
      modifies store
      ensures store == old(store)
      ensures r == old(CheckNotClosed())
      ensures !old(IsOpen()) ==> store != null ==> unchanged(store)
      ensures old(IsOpen()) ==>
        !store.closed && store.slots == PutSlots(old(store.slots), NameOf(key), e, OrderOf(iteration, e), faults)
    {
      r := CheckNotClosed();
      if r.Ok? && !faults.editBusy {
        var name := NameOf(key);
        var order := OrderOf(iteration, e);
        var header := HeaderFor(NameBytes(name), e);
        PutWrites(PutRecord(name, e, order), EncodeHeader(header, order), e.data, faults.room);
        var success, os := WriteHeader(header, order, Sink([], faults.room));
        if success {
          var written := Emit(os, e.data);
          if written.Some? && !faults.commitFails {
            store.Commit(name, written.value.written);
          }
        }
      }
    }

    /** `invalidate(key, fullExpire)`: `get`, then `put` back the expired entry. */
    method Invalidate(key: Bytes, fullExpire: bool, getFaults: GetFaults, chunk: nat, putFaults: PutFaults)
      returns (r: Result<(), StateError>)
      requires 0 < chunk && IteratesAll(iteration)
      modifies store
      ensures store == old(store)
      ensures r == old(CheckNotClosed())
      ensures !old(IsOpen()) ==> store != null ==> unchanged(store)
      ensures old(IsOpen()) ==>
        !store.closed &&
        store.slots == InvalidateSlots(old(store.slots), NameOf(key), fullExpire, iteration, getFaults, putFaults)
    {
      r := CheckNotClosed();
      if r.Err? {
        return;
      }
      var entry := Get(key, getFaults, chunk);
      if entry.value.Some? {
        var e := Expire(entry.value.value, fullExpire);
        var _ := Put(key, e, putFaults);
      }
    }

    /** `clear()`: delete the store and its directory, then `initialize` again. */
    method Clear(deleteFails: bool, dirReady: bool, openFails: bool) returns (r: Result<(), StateError>)
      modifies this, store
      ensures r == old(CheckNotClosed())
      ensures !old(IsOpen()) ==> store == old(store) && (store != null ==> unchanged(store))
      ensures old(IsOpen()) && (!dirReady || openFails) ==>
        store == old(store) && store.closed && store.slots == if deleteFails then old(store.slots) else map[]
      ensures old(IsOpen()) && dirReady && !openFails ==>
        store != null && fresh(store) && !store.closed && store.slots == if deleteFails then old(store.slots) else map[]
    {
      r := CheckNotClosed();
      if r.Err? {
        return;
      }
      store.Delete(deleteFails);
      Initialize(dirReady, openFails, store.slots);
    }

    /** `close()`: nothing when the store is null or closed; otherwise close it and drop
        it.  An IOException from the store's close keeps it, still open. */
    method Close(fails: bool)
      modifies this, store
      ensures !old(IsOpen()) ==> store == old(store) && (store != null ==> unchanged(store))
      ensures old(IsOpen()) && !fails ==> store == null && old(store).closed && old(store).slots == old(store.slots)
      ensures old(IsOpen()) && fails ==> store == old(store) && store.slots == old(store.slots) && !store.closed
    {
      if store == null || store.closed {
        return;
      }
      var ok := store.Close(fails);
      if ok {
        store := null;
      }
    }
  }
}
