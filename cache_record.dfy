/** The binary record DiskLruBasedCache keeps in each store slot: a
    little-endian header (magic, payload size, key, etag, four timestamps,
    response headers) followed by the raw payload.

    An InputStream is modelled as the bytes it has yet to deliver: every
    decoder returns the value read together with the bytes left unread, or the
    exception it throws.  An OutputStream is modelled as the bytes written to
    it and the number of bytes it accepts before it throws (`room`). */
module CacheRecord {
  import opened Lang

  /** Magic number of the current cache file format. */
  const CACHE_MAGIC: int32 := 0x20150306

  /** A response-header map, Strings taken as their UTF-8 bytes; `size()` is an int. */
  type Headers = m: map<Bytes, Bytes> | |m| < 0x8000_0000

  /** Volley's `Cache.Entry`. */
  datatype Entry = Entry(
    data: Bytes,
    etag: Option<Bytes>,
    serverDate: int64,
    lastModified: int64,
    ttl: int64,
    softTtl: int64,
    responseHeaders: Option<Headers>)

  /** `CacheHeader`: everything of a record except its payload. */
  datatype CacheHeader = CacheHeader(
    size: int64,
    key: Bytes,
    etag: Option<Bytes>,
    serverDate: int64,
    lastModified: int64,
    ttl: int64,
    softTtl: int64,
    responseHeaders: Option<Headers>)

  /** The exceptions the readers throw. */
  datatype Error =
    | EndOfStream        // EOFException from `read`
    | BadMagic           // IOException from `readHeader`
    | ShortRead          // IOException from `streamToBytes`
    | NegativeArraySize  // `new byte[n]` with n < 0
    | NegativeCapacity   // `new HashMap(n)` with n < 0 (IllegalArgumentException)

  /** The first three are IOExceptions; the other two are RuntimeExceptions. */
  predicate IsIOException(e: Error) {
    e == EndOfStream || e == BadMagic || e == ShortRead
  }

  /** A value read from a stream and the bytes still unread after it. */
  datatype Read<+T> = Read(value: T, rest: seq<uint8>)

  type Decoded<T> = Result<Read<T>, Error>

  // ---------------------------------------------------------------------
  // Little-endian integers

  /** `Integer.BYTES`. */
  function IntBytes(): nat { 4 }

  /** `Long.BYTES`. */
  function LongBytes(): nat { 8 }

  function Pow256(k: nat): (r: nat)
    ensures r > 0
  {
    if k == 0 then 1 else 0x100 * Pow256(k - 1)
  }

  /** The k low-order bytes of n, least significant first: byte i is `(n >> 8*i) & 0xff`. */
  function LeBytes(n: nat, k: nat): (r: seq<uint8>)
    ensures |r| == k
  {
    if k == 0 then [] else [n % 0x100] + LeBytes(n / 0x100, k - 1)
  }

  /** The unsigned value of little-endian bytes: byte i contributes `b[i] << 8*i`. */
  function Unsigned(b: seq<uint8>): (r: nat)
    ensures r < Pow256(|b|)
  {
    if b == [] then 0 else b[0] + 0x100 * Unsigned(b[1..])
  }

  lemma {:induction false} UnsignedOfLeBytes(n: nat, k: nat)
    requires n < Pow256(k)
    ensures Unsigned(LeBytes(n, k)) == n
  {
    if k > 0 {
      UnsignedOfLeBytes(n / 0x100, k - 1);
      assert LeBytes(n, k)[1..] == LeBytes(n / 0x100, k - 1);
    }
  }

  lemma {:induction false} LeBytesOfUnsigned(b: seq<uint8>)
    ensures LeBytes(Unsigned(b), |b|) == b
  {
    if b != [] {
      LeBytesOfUnsigned(b[1..]);
      var u := Unsigned(b);
      assert u % 0x100 == b[0] && u / 0x100 == Unsigned(b[1..]);
      assert b == [b[0]] + b[1..];
    }
  }

  /** `writeInt`: byte i is `(n >> 8*i) & 0xff`. */
  function EncodeInt(n: int32): (r: seq<uint8>)
    ensures |r| == 4
  {
    LeBytes(n % 0x1_0000_0000, IntBytes())
  }

  /** `writeLong`: byte i is `(byte)(n >>> 8*i)`. */
  function EncodeLong(n: int64): (r: seq<uint8>)
    ensures |r| == 8
  {
    LeBytes(n % 0x1_0000_0000_0000_0000, LongBytes())
  }

  /** `readInt`: four `read()`s or'ed in at shifts 0, 8, 16, 24 of an `int`. */
  function DecodeInt(s: seq<uint8>): (r: Decoded<int32>)
    ensures r.Ok? <==> 4 <= |s|
    ensures r.Err? ==> r.error == EndOfStream
    ensures r.Ok? ==> r.value.rest == s[4..]
  {
    if 4 <= |s| then Ok(Read(ToInt32(Unsigned(s[..4])), s[4..]))
    else Err(EndOfStream)
  }

  /** `readLong`: eight `read()`s or'ed in at shifts 0, 8, ..., 56 of a `long`. */
  function DecodeLong(s: seq<uint8>): (r: Decoded<int64>)
    ensures r.Ok? <==> 8 <= |s|
    ensures r.Err? ==> r.error == EndOfStream
    ensures r.Ok? ==> r.value.rest == s[8..]
  {
    if 8 <= |s| then Ok(Read(ToInt64(Unsigned(s[..8])), s[8..]))
    else Err(EndOfStream)
  }

  lemma Pow256Int()
    ensures Pow256(IntBytes()) == 0x1_0000_0000
  {
  }

  lemma Pow256Long()
    ensures Pow256(LongBytes()) == 0x1_0000_0000_0000_0000
  {
  }

  /** Every int survives writeInt then readInt. */
  lemma IntRoundTrip(n: int32)
    ensures ToInt32(Unsigned(EncodeInt(n))) == n
  {
    Pow256Int();
    UnsignedOfLeBytes(n % 0x1_0000_0000, IntBytes());
    Int32Wraps(n);
  }

  /** Every long survives writeLong then readLong. */
  lemma LongRoundTrip(n: int64)
    ensures ToInt64(Unsigned(EncodeLong(n))) == n
  {
    Pow256Long();
    UnsignedOfLeBytes(n % 0x1_0000_0000_0000_0000, LongBytes());
    Int64Wraps(n);
  }

  /** Four bytes read as an int and written back are the same four bytes. */
  lemma IntBytesRoundTrip(b: seq<uint8>)
    requires |b| == 4
    ensures EncodeInt(ToInt32(Unsigned(b))) == b
  {
    Pow256Int();
    Int32Bits(Unsigned(b));
    LeBytesOfUnsigned(b);
  }

  /** Eight bytes read as a long and written back are the same eight bytes. */
  lemma LongBytesRoundTrip(b: seq<uint8>)
    requires |b| == 8
    ensures EncodeLong(ToInt64(Unsigned(b))) == b
  {
    Pow256Long();
    Int64Bits(Unsigned(b));
    LeBytesOfUnsigned(b);
  }

  // ---------------------------------------------------------------------
  // Byte arrays and strings

  /** `streamToBytes(in, length)`: `new byte[length]` (negative sizes throw),
      then exactly `length` bytes or an IOException. */
  function DecodeBytes(s: seq<uint8>, length: int32): (r: Decoded<Bytes>)
    ensures r.Ok? <==> 0 <= length as int <= |s|
    ensures r.Ok? ==> r.value.value == s[..length] && r.value.rest == s[length..]
    ensures r.Err? ==> r.error == (if length < 0 then NegativeArraySize else ShortRead)
  {
    if length < 0 then Err(NegativeArraySize)
    else if length as int <= |s| then Ok(Read(s[..length], s[length..]))
    else Err(ShortRead)
  }

  /** `writeString`: the byte count as a long, then the bytes. */
  function EncodeString(b: Bytes): (r: seq<uint8>)
    ensures |r| == 8 + |b|
  {
    EncodeLong(|b|) + b
  }

  /** `readString`: a long narrowed to an int, then that many bytes. */
  function DecodeString(s: seq<uint8>): Decoded<Bytes> {
    var n :- DecodeLong(s);
    DecodeBytes(n.rest, ToInt32(n.value))
  }

  // ---------------------------------------------------------------------
  // String maps

  /** One map entry as the writer's loop emits it: key string, then value string. */
  function EncodeEntry(k: Bytes, v: Bytes): (r: seq<uint8>)
    ensures |r| == 16 + |k| + |v|
  {
    EncodeString(k) + EncodeString(v)
  }

  /** `entrySet()` of `m` iterated in the order `order`. */
  function EntriesOf(m: Headers, order: seq<Bytes>): (es: seq<(Bytes, Bytes)>)
    requires forall i :: 0 <= i < |order| ==> order[i] in m
    ensures |es| == |order| && forall i :: 0 <= i < |es| ==> es[i] == (order[i], m[order[i]])
  {
    seq(|order|, i requires 0 <= i < |order| => (order[i], m[order[i]]))
  }

  /** The loop of `writeStringStringMap` over the entries `es`. */
  function EncodeEntries(es: seq<(Bytes, Bytes)>): seq<uint8> {
    if es == [] then [] else EncodeEntry(es[0].0, es[0].1) + EncodeEntries(es[1..])
  }

  /** `writeStringStringMap`: the size as an int, then the entries; null is written as size 0. */
  function EncodeStringStringMap(m: Option<Headers>, order: seq<Bytes>): (r: seq<uint8>)
    requires m.Some? ==> Enumerates(order, m.value.Keys)
  {
    match m
    case None => EncodeInt(0)
    case Some(h) => EncodeInt(|h|) + EncodeEntries(EntriesOf(h, order))
  }

  /** One iteration of the loop of `readStringStringMap`: a key string, then a value string. */
  function DecodeEntry(s: seq<uint8>): Decoded<(Bytes, Bytes)> {
    var k :- DecodeString(s);
    var v :- DecodeString(k.rest);
    Ok(Read((k.value, v.value), v.rest))
  }

  /** `count` iterations of the loop of `readStringStringMap`, putting each entry into `acc`. */
  function DecodePairs(s: seq<uint8>, count: nat, acc: Headers): Decoded<Headers>
    requires |acc| + count < 0x8000_0000
    decreases count
  {
    if count == 0 then Ok(Read(acc, s))
    else
      var e :- DecodeEntry(s);
      DecodePairs(e.rest, count - 1, acc[e.value.0 := e.value.1])
  }

  /** `readStringStringMap`: a size, which `new HashMap(size)` rejects when negative, then
      the entries; the result is never null. */
  function DecodeStringStringMap(s: seq<uint8>): Decoded<Headers> {
    var n :- DecodeInt(s);
    if n.value < 0 then Err(NegativeCapacity)
    else DecodePairs(n.rest, n.value, map[])
  }

  /** The map `acc` after putting the entries `es` in order, later ones replacing earlier. */
  function PutEntries(acc: map<Bytes, Bytes>, es: seq<(Bytes, Bytes)>): map<Bytes, Bytes>
    decreases es
  {
    if es == [] then acc else PutEntries(acc[es[0].0 := es[0].1], es[1..])
  }

  /** Putting entries of `m` into a map that agrees with `m`, until every key is there,
      yields `m`. */
  lemma {:induction false} PutEntriesCovers(m: map<Bytes, Bytes>, es: seq<(Bytes, Bytes)>, acc: map<Bytes, Bytes>)
    requires forall i :: 0 <= i < |es| ==> es[i].0 in m && es[i].1 == m[es[i].0]
    requires forall k :: k in acc ==> k in m && acc[k] == m[k]
    requires forall k :: k in m ==> k in acc || exists i :: 0 <= i < |es| && es[i].0 == k
    ensures PutEntries(acc, es) == m
    decreases |es|
  {
    if es == [] {
      assert acc.Keys == m.Keys;
    } else {
      var acc' := acc[es[0].0 := es[0].1];
      forall k | k in m && k !in acc'
        ensures exists i :: 0 <= i < |es[1..]| && es[1..][i].0 == k
      {
        var i :| 0 <= i < |es| && es[i].0 == k;
        assert es[1..][i - 1].0 == k;
      }
      PutEntriesCovers(m, es[1..], acc');
    }
  }

  /** Reading back the entries of a map, in an order that enumerates its keys, into an
      empty map gives back the map. */
  lemma PutEntriesEnumerated(h: Headers, order: seq<Bytes>)
    requires Enumerates(order, h.Keys)
    ensures forall i :: 0 <= i < |order| ==> order[i] in h
    ensures |order| == |h| && PutEntries(map[], EntriesOf(h, order)) == h
  {
    assert |h.Keys| == |h|;
    var es := EntriesOf(h, order);
    forall k | k in h
      ensures exists i :: 0 <= i < |es| && es[i].0 == k
    {
      var i :| 0 <= i < |order| && order[i] == k;
      assert es[i].0 == k;
    }
    PutEntriesCovers(h, es, map[]);
  }

  // ---------------------------------------------------------------------
  // The header

  /** `readHeader` reads, after the magic, a run of longs and strings and then the map. */
  datatype Kind = LongKind | StringKind

  datatype Field = LongField(long: int64) | StringField(bytes: Bytes) {
    function Kind(): Kind {
      if LongField? then LongKind else StringKind
    }
  }

  /** size, key, etag, serverDate, lastModified, ttl, softTtl. */
  const HEADER_FIELDS: seq<Kind> :=
    [LongKind, StringKind, StringKind, LongKind, LongKind, LongKind, LongKind]

  function KindsOf(fs: seq<Field>): (r: seq<Kind>)
    ensures |r| == |fs|
  {
    if fs == [] then [] else [fs[0].Kind()] + KindsOf(fs[1..])
  }

  lemma {:induction false} KindsOfAt(fs: seq<Field>, i: nat)
    requires i < |fs|
    ensures KindsOf(fs)[i] == fs[i].Kind()
  {
    if i > 0 {
      KindsOfAt(fs[1..], i - 1);
    }
  }

  function EncodeField(f: Field): seq<uint8> {
    match f
    case LongField(x) => EncodeLong(x)
    case StringField(b) => EncodeString(b)
  }

  function DecodeField(k: Kind, s: seq<uint8>): (r: Decoded<Field>)
    ensures r.Ok? ==> r.value.value.Kind() == k
  {
    match k
    case LongKind =>
      var x :- DecodeLong(s);
      Ok(Read(LongField(x.value), x.rest))
    case StringKind =>
      var b :- DecodeString(s);
      Ok(Read(StringField(b.value), b.rest))
  }

  function EncodeFields(fs: seq<Field>): seq<uint8> {
    if fs == [] then [] else EncodeField(fs[0]) + EncodeFields(fs[1..])
  }

  /** The fields of kinds `ks`, read in order. */
  function DecodeFields(ks: seq<Kind>, s: seq<uint8>): (r: Decoded<seq<Field>>)
    ensures r.Ok? ==> KindsOf(r.value.value) == ks
  {
    if ks == [] then Ok(Read([], s))
    else
      var f :- DecodeField(ks[0], s);
      var fs :- DecodeFields(ks[1..], f.rest);
      assert KindsOf([f.value] + fs.value) == ks;
      Ok(Read([f.value] + fs.value, fs.rest))
  }

  /** `writeHeader`'s etag: null is written as "". */
  function EtagOut(etag: Option<Bytes>): Bytes {
    etag.GetOr([])
  }

  /** `readHeader`'s etag: "" is read as null. */
  function EtagIn(etag: Bytes): (r: Option<Bytes>)
    ensures r.None? <==> etag == []
    ensures r.Some? ==> r.value == etag
  {
    if etag == [] then None else Some(etag)
  }

  /** The fields `writeHeader` writes between the magic and the map. */
  function FieldsOf(h: CacheHeader): seq<Field> {
    [LongField(h.size), StringField(h.key), StringField(EtagOut(h.etag)),
     LongField(h.serverDate), LongField(h.lastModified), LongField(h.ttl), LongField(h.softTtl)]
  }

  /** The header `readHeader` builds from the fields and the map it read. */
  function HeaderOf(fs: seq<Field>, rh: Headers): CacheHeader
    requires KindsOf(fs) == HEADER_FIELDS
  {
    KindsOfAt(fs, 0); KindsOfAt(fs, 1); KindsOfAt(fs, 2); KindsOfAt(fs, 3);
    KindsOfAt(fs, 4); KindsOfAt(fs, 5); KindsOfAt(fs, 6);
    CacheHeader(fs[0].long, fs[1].bytes, EtagIn(fs[2].bytes),
                fs[3].long, fs[4].long, fs[5].long, fs[6].long, Some(rh))
  }

  /** `writeHeader` on a stream that accepts everything. */
  function EncodeHeader(h: CacheHeader, order: seq<Bytes>): seq<uint8>
    requires h.responseHeaders.Some? ==> Enumerates(order, h.responseHeaders.value.Keys)
  {
    EncodeInt(CACHE_MAGIC) + (EncodeFields(FieldsOf(h)) + EncodeStringStringMap(h.responseHeaders, order))
  }

  /** `readHeader`: the magic is checked before anything else is read. */
  function DecodeHeader(s: seq<uint8>): Decoded<CacheHeader> {
    var magic :- DecodeInt(s);
    if magic.value != CACHE_MAGIC then Err(BadMagic) else DecodeHeaderFields(magic.rest)
  }

  /** The rest of `readHeader`: the fields of the kinds `HEADER_FIELDS` in the order
      `writeHeader` wrote them, then the map; the empty etag is read as null. */
  function DecodeHeaderFields(s: seq<uint8>): Decoded<CacheHeader> {
    var fs :- DecodeFields(HEADER_FIELDS, s);
    var rh :- DecodeStringStringMap(fs.rest);
    Ok(Read(HeaderOf(fs.value, rh.value), rh.rest))
  }

  /** What a header reads back as: "" and null etags both come back null, and a null
      map comes back empty. */
  function NormalHeader(h: CacheHeader): (r: CacheHeader)
    ensures r.etag.Some? ==> h.etag == r.etag && r.etag.value != []
    ensures r.responseHeaders.Some?
  {
    h.(etag := EtagIn(EtagOut(h.etag)), responseHeaders := Some(h.responseHeaders.GetOr(map[])))
  }

  // ---------------------------------------------------------------------
  // The record

  /** `new CacheHeader(key, entry)`. */
  function HeaderFor(key: Bytes, e: Entry): (h: CacheHeader)
    ensures h.size == |e.data| && h.key == key && h.etag == e.etag
    ensures h.serverDate == e.serverDate && h.lastModified == e.lastModified
    ensures h.ttl == e.ttl && h.softTtl == e.softTtl && h.responseHeaders == e.responseHeaders
  {
    CacheHeader(|e.data|, key, e.etag, e.serverDate, e.lastModified, e.ttl, e.softTtl, e.responseHeaders)
  }

  /** `toCacheEntry(data)`. */
  function ToCacheEntry(h: CacheHeader, data: Bytes): (e: Entry)
    ensures e.data == data && e.etag == h.etag
    ensures e.serverDate == h.serverDate && e.lastModified == h.lastModified
    ensures e.ttl == h.ttl && e.softTtl == h.softTtl && e.responseHeaders == h.responseHeaders
  {
    Entry(data, h.etag, h.serverDate, h.lastModified, h.ttl, h.softTtl, h.responseHeaders)
  }

  /** The iteration order of a possibly null map lists its keys. */
  ghost predicate Orders(m: Option<Headers>, order: seq<Bytes>) {
    m.Some? ==> Enumerates(order, m.value.Keys)
  }

  /** What `put(key, e)` leaves in the slot: the header, then the payload. */
  function EncodeRecord(key: Bytes, e: Entry, order: seq<Bytes>): seq<uint8>
    requires Orders(e.responseHeaders, order)
  {
    EncodeHeader(HeaderFor(key, e), order) + e.data
  }

  /** What `get` makes of a slot: the header, then `(int) size` payload bytes; bytes after
      the payload are never read. */
  function DecodeRecord(s: seq<uint8>): Result<Entry, Error> {
    var h :- DecodeHeader(s);
    var data :- DecodeBytes(h.rest, ToInt32(h.value.size));
    Ok(ToCacheEntry(h.value, data.value))
  }

  /** What an entry reads back as. */
  function Normalized(e: Entry): (r: Entry)
    ensures r.data == e.data && r.serverDate == e.serverDate && r.lastModified == e.lastModified
    ensures r.ttl == e.ttl && r.softTtl == e.softTtl
    ensures r.etag == (if e.etag == Some([]) then None else e.etag)
    ensures r.responseHeaders == Some(e.responseHeaders.GetOr(map[]))
  {
    e.(etag := EtagIn(EtagOut(e.etag)), responseHeaders := Some(e.responseHeaders.GetOr(map[])))
  }

  // ---------------------------------------------------------------------
  // Reading back what was written

  /** `r` is what a reader returned on a stream that delivers the first `n` bytes of
      `enc + more`, where `enc` is the encoding of `v`: if all of `enc` arrives, `v` is
      read and the stream goes on with the rest of `more`; if the stream ends first, an
      IOException. */
  ghost predicate ReadsBack<T>(r: Decoded<T>, v: T, enc: seq<uint8>, more: seq<uint8>, n: nat) {
    n <= |enc| + |more| &&
    if |enc| <= n then r == Ok(Read(v, more[..n - |enc|]))
    else r.Err? && IsIOException(r.error)
  }

  /** Reading `e1` then `e2`: if the first read gives back `v1` and the second `v2`, the
      two in sequence give back what they build. */
  lemma Chain<A, B, C>(r1: Decoded<A>, v1: A, e1: seq<uint8>, r2: Decoded<B>, v2: B, e2: seq<uint8>,
                       r: Decoded<C>, v: C, more: seq<uint8>, n: nat)
    requires ReadsBack(r1, v1, e1, e2 + more, n)
    requires |e1| <= n ==> ReadsBack(r2, v2, e2, more, n - |e1|)
    requires r1.Err? ==> r == Err(r1.error)
    requires r1.Ok? && r2.Err? ==> r == Err(r2.error)
    requires r1.Ok? && r2.Ok? ==> r == Ok(Read(v, r2.value.rest))
    ensures ReadsBack(r, v, e1 + e2, more, n)
  {
  }

  /** Concatenation regroups; stated once so that proofs need not rediscover it. */
  lemma Assoc(a: seq<uint8>, b: seq<uint8>, c: seq<uint8>)
    ensures (a + b) + c == a + (b + c)
  {
  }

  /** Cutting `a + b` after `n` bytes cuts inside `b` when `a` fits. */
  lemma CutSplit(a: seq<uint8>, b: seq<uint8>, n: nat)
    requires |a| <= n <= |a| + |b|
    ensures (a + b)[..n] == a + b[..n - |a|]
  {
  }

  /** Whatever passes the reader of `e` unread. */
  lemma CutRest(e: seq<uint8>, more: seq<uint8>, n: nat)
    requires |e| <= n <= |e| + |more|
    ensures (e + more)[..n][..|e|] == e && (e + more)[..n][|e|..] == more[..n - |e|]
  {
    CutSplit(e, more, n);
  }

  /** readInt reads back what writeInt wrote, and fails with EOF on a stream cut short. */
  lemma DecodeIntReadsBack(x: int32, more: seq<uint8>, n: nat)
    requires n <= 4 + |more|
    ensures ReadsBack(DecodeInt((EncodeInt(x) + more)[..n]), x, EncodeInt(x), more, n)
  {
    if 4 <= n {
      CutRest(EncodeInt(x), more, n);
      IntRoundTrip(x);
    }
  }

  /** readLong reads back what writeLong wrote, and fails with EOF on a stream cut short. */
  lemma DecodeLongReadsBack(x: int64, more: seq<uint8>, n: nat)
    requires n <= 8 + |more|
    ensures ReadsBack(DecodeLong((EncodeLong(x) + more)[..n]), x, EncodeLong(x), more, n)
  {
    if 8 <= n {
      CutRest(EncodeLong(x), more, n);
      LongRoundTrip(x);
    }
  }

  /** streamToBytes reads back a byte array of the announced length, and throws when
      fewer bytes arrive. */
  lemma DecodeBytesReadsBack(b: Bytes, more: seq<uint8>, n: nat)
    requires n <= |b| + |more|
    ensures ReadsBack(DecodeBytes((b + more)[..n], |b|), b, b, more, n)
  {
    if |b| <= n {
      CutRest(b, more, n);
    }
  }

  /** readString reads back what writeString wrote; a stream cut short gives an IOException. */
  lemma DecodeStringReadsBack(b: Bytes, more: seq<uint8>, n: nat)
    requires n <= |EncodeString(b)| + |more|
    ensures ReadsBack(DecodeString((EncodeString(b) + more)[..n]), b, EncodeString(b), more, n)
  {
    var len := EncodeLong(|b|);
    Assoc(len, b, more);
    var t := (len + (b + more))[..n];
    DecodeLongReadsBack(|b|, b + more, n);
    if 8 <= n {
      DecodeBytesReadsBack(b, more, n - 8);
      Int32Keeps(|b|);
      Chain(DecodeLong(t), |b|, len, DecodeBytes((b + more)[..n - 8], |b|), b, b, DecodeString(t), b, more, n);
    }
  }

  /** One loop iteration of readStringStringMap reads back the entry the writer emitted. */
  lemma DecodeEntryReadsBack(k: Bytes, v: Bytes, more: seq<uint8>, n: nat)
    requires n <= |EncodeEntry(k, v)| + |more|
    ensures ReadsBack(DecodeEntry((EncodeEntry(k, v) + more)[..n]), (k, v), EncodeEntry(k, v), more, n)
  {
    var ek, ev := EncodeString(k), EncodeString(v);
    Assoc(ek, ev, more);
    var t := (ek + (ev + more))[..n];
    DecodeStringReadsBack(k, ev + more, n);
    if |ek| <= n {
      DecodeStringReadsBack(v, more, n - |ek|);
      Chain(DecodeString(t), k, ek, DecodeString((ev + more)[..n - |ek|]), v, ev, DecodeEntry(t), (k, v), more, n);
    }
  }

  /** One turn of the pair loop, once its entry has been read. */
  lemma DecodePairsStep(t: seq<uint8>, count: nat, acc: Headers)
    requires 0 < count && |acc| + count < 0x8000_0000
    ensures DecodeEntry(t).Err? ==> DecodePairs(t, count, acc) == Err(DecodeEntry(t).error)
    ensures DecodeEntry(t).Ok? ==>
      var e := DecodeEntry(t).value;
      DecodePairs(t, count, acc) == DecodePairs(e.rest, count - 1, acc[e.value.0 := e.value.1])
  {
  }

  /** A turn of the pair loop that reads the entry `(k, v)` leaves the remaining turns. */
  lemma DecodePairsTurn(t: seq<uint8>, k: Bytes, v: Bytes, rest: seq<uint8>, total: nat, acc: Headers)
    requires DecodeEntry(t) == Ok(Read((k, v), rest))
    requires 0 < total && |acc| + total < 0x8000_0000
    ensures DecodePairs(t, total, acc) == DecodePairs(rest, total - 1, acc[k := v])
  {
    DecodePairsStep(t, total, acc);
  }

  /** One turn of the pair loop reads back the entry `(k, v)` at the head of `enc` and
      hands the rest of the stream to the remaining turns. */
  lemma DecodePairsCons(k: Bytes, v: Bytes, tail: seq<uint8>, enc: seq<uint8>, total: nat, acc: Headers,
                        h: Headers, more: seq<uint8>, n: nat)
    requires enc == EncodeEntry(k, v) + tail
    requires 0 < total && |acc| + total < 0x8000_0000
    requires n <= |enc| + |more|
    requires |EncodeEntry(k, v)| <= n ==>
      ReadsBack(DecodePairs((tail + more)[..n - |EncodeEntry(k, v)|], total - 1, acc[k := v]), h, tail, more,
                n - |EncodeEntry(k, v)|)
    ensures ReadsBack(DecodePairs((enc + more)[..n], total, acc), h, enc, more, n)
  {
    var entry := EncodeEntry(k, v);
    Assoc(entry, tail, more);
    var t := (entry + (tail + more))[..n];
    DecodeEntryReadsBack(k, v, tail + more, n);
    if |entry| <= n {
      DecodePairsTurn(t, k, v, (tail + more)[..n - |entry|], total, acc);
      ReadsBackAfter(DecodePairs(t, total, acc), h, entry, tail, more, n);
    } else {
      DecodePairsStep(t, total, acc);
    }
  }

  /** The first turn of the pair loop over the entries `es`, given what the remaining
      turns read back. */
  lemma DecodePairsFirst(es: seq<(Bytes, Bytes)>, acc: Headers, h: Headers, more: seq<uint8>, n: nat)
    requires es != [] && |acc| + |es| < 0x8000_0000
    requires n <= |EncodeEntries(es)| + |more|
    requires |EncodeEntry(es[0].0, es[0].1)| <= n ==>
      ReadsBack(DecodePairs((EncodeEntries(es[1..]) + more)[..n - |EncodeEntry(es[0].0, es[0].1)|], |es[1..]|,
                            acc[es[0].0 := es[0].1]),
                h, EncodeEntries(es[1..]), more, n - |EncodeEntry(es[0].0, es[0].1)|)
    ensures ReadsBack(DecodePairs((EncodeEntries(es) + more)[..n], |es|, acc), h, EncodeEntries(es), more, n)
  {
    DecodePairsCons(es[0].0, es[0].1, EncodeEntries(es[1..]), EncodeEntries(es), |es|, acc, h, more, n);
  }

  /** Putting the first entry leaves the rest to put, within the size an int allows. */
  lemma PutEntriesFirst(es: seq<(Bytes, Bytes)>, acc: Headers, h: Headers)
    requires es != [] && |acc| + |es| < 0x8000_0000 && PutEntries(acc, es) == h
    ensures |acc[es[0].0 := es[0].1]| + |es[1..]| < 0x8000_0000
    ensures PutEntries(acc[es[0].0 := es[0].1], es[1..]) == h
  {
  }

  /** No turns of the pair loop read back `acc` itself. */
  lemma DecodePairsNone(acc: Headers, h: Headers, more: seq<uint8>, n: nat)
    requires PutEntries(acc, []) == h && n <= |more|
    ensures ReadsBack(DecodePairs((EncodeEntries([]) + more)[..n], 0, acc), h, EncodeEntries([]), more, n)
  {
    assert EncodeEntries([]) + more == more;
  }

  /** The pair loop reads back the entries the writer emitted, in the same order, as the
      map `h` they build when put into `acc`. */
  lemma {:induction false} DecodePairsReadsBack(es: seq<(Bytes, Bytes)>, acc: Headers, h: Headers,
                                                more: seq<uint8>, n: nat)
    requires |acc| + |es| < 0x8000_0000 && PutEntries(acc, es) == h
    requires n <= |EncodeEntries(es)| + |more|
    ensures ReadsBack(DecodePairs((EncodeEntries(es) + more)[..n], |es|, acc), h, EncodeEntries(es), more, n)
    decreases |es|
  {
    if es == [] {
      DecodePairsNone(acc, h, more, n);
    } else {
      var entry := EncodeEntry(es[0].0, es[0].1);
      PutEntriesFirst(es, acc, h);
      if |entry| <= n {
        DecodePairsReadsBack(es[1..], acc[es[0].0 := es[0].1], h, more, n - |entry|);
      }
      DecodePairsFirst(es, acc, h, more, n);
    }
  }

  /** readStringStringMap once its count has been read. */
  lemma DecodeStringStringMapStep(t: seq<uint8>)
    ensures DecodeInt(t).Err? ==> DecodeStringStringMap(t) == Err(DecodeInt(t).error)
    ensures DecodeInt(t).Ok? && 0 <= DecodeInt(t).value.value ==>
      DecodeStringStringMap(t) == DecodePairs(DecodeInt(t).value.rest, DecodeInt(t).value.value, map[])
  {
  }

  /** A read that reads back past `e2` reads back past `e1 + e2` on the stream `e1` longer. */
  lemma ReadsBackAfter<T>(r: Decoded<T>, v: T, e1: seq<uint8>, e2: seq<uint8>, more: seq<uint8>, n: nat)
    requires |e1| <= n && ReadsBack(r, v, e2, more, n - |e1|)
    ensures ReadsBack(r, v, e1 + e2, more, n)
  {
  }

  /** readStringStringMap, once it has read the count `c` from `size`, reads back what the
      pair loop reads back. */
  lemma DecodeStringStringMapAfterCount(t: seq<uint8>, c: int32, rest: seq<uint8>, h: Headers,
                                        size: seq<uint8>, pairs: seq<uint8>, more: seq<uint8>, n: nat)
    requires 0 <= c && |size| <= n && DecodeInt(t) == Ok(Read(c, rest))
    requires ReadsBack(DecodePairs(rest, c as nat, map[]), h, pairs, more, n - |size|)
    ensures ReadsBack(DecodeStringStringMap(t), h, size + pairs, more, n)
  {
    ReadsBackAfter(DecodeStringStringMap(t), h, size, pairs, more, n);
  }

  /** The count `c` followed by bytes `pairs` that the pair loop reads back as `h` reads
      back as `h`. */
  lemma DecodeCountReadsBack(c: int32, pairs: seq<uint8>, h: Headers, more: seq<uint8>, n: nat)
    requires 0 <= c && n <= 4 + |pairs| + |more|
    requires 4 <= n ==> ReadsBack(DecodePairs((pairs + more)[..n - 4], c as nat, map[]), h, pairs, more, n - 4)
    ensures ReadsBack(DecodeStringStringMap((EncodeInt(c) + pairs + more)[..n]), h, EncodeInt(c) + pairs, more, n)
  {
    var size := EncodeInt(c);
    Assoc(size, pairs, more);
    if 4 <= n {
      var rest := (pairs + more)[..n - 4];
      CutSplit(size, pairs + more, n);
      IntReadBack(c, rest);
      DecodeStringStringMapAfterCount(size + rest, c, rest, h, size, pairs, more, n);
    }
  }

  /** A map written as the count `|es|` and then the entries `es` reads back as the
      entries put into an empty map. */
  lemma DecodeCountedEntriesReadsBack(es: seq<(Bytes, Bytes)>, h: Headers, more: seq<uint8>, n: nat)
    requires |es| < 0x8000_0000 && PutEntries(map[], es) == h
    requires n <= |EncodeInt(|es|)| + |EncodeEntries(es)| + |more|
    ensures ReadsBack(DecodeStringStringMap((EncodeInt(|es|) + EncodeEntries(es) + more)[..n]), h,
                      EncodeInt(|es|) + EncodeEntries(es), more, n)
  {
    if 4 <= n {
      DecodePairsReadsBack(es, map[], h, more, n - 4);
    }
    DecodeCountReadsBack(|es|, EncodeEntries(es), h, more, n);
  }

  /** readStringStringMap reads back what writeStringStringMap wrote, null read back as the
      empty map; a stream cut short gives an IOException. */
  lemma DecodeStringStringMapReadsBack(m: Option<Headers>, order: seq<Bytes>, more: seq<uint8>, n: nat)
    requires Orders(m, order)
    requires n <= |EncodeStringStringMap(m, order)| + |more|
    ensures ReadsBack(DecodeStringStringMap((EncodeStringStringMap(m, order) + more)[..n]),
                      m.GetOr(map[]), EncodeStringStringMap(m, order), more, n)
  {
    if m.None? {
      DecodeIntReadsBack(0, more, n);
    } else {
      var h := m.value;
      PutEntriesEnumerated(h, order);
      DecodeCountedEntriesReadsBack(EntriesOf(h, order), h, more, n);
    }
  }

  /** A field of the header reads back as written. */
  lemma DecodeFieldReadsBack(f: Field, more: seq<uint8>, n: nat)
    requires n <= |EncodeField(f)| + |more|
    ensures ReadsBack(DecodeField(f.Kind(), (EncodeField(f) + more)[..n]), f, EncodeField(f), more, n)
  {
    match f
    case LongField(x) => DecodeLongReadsBack(x, more, n);
    case StringField(b) => DecodeStringReadsBack(b, more, n);
  }

  /** One step of the field reader, once its first field has been read. */
  lemma DecodeFieldsStep(k: Kind, ks: seq<Kind>, t: seq<uint8>)
    ensures DecodeField(k, t).Err? ==> DecodeFields([k] + ks, t) == Err(DecodeField(k, t).error)
    ensures DecodeField(k, t).Ok? ==>
      var f := DecodeField(k, t).value;
      var r := DecodeFields(ks, f.rest);
      DecodeFields([k] + ks, t) == if r.Err? then Err(r.error) else Ok(Read([f.value] + r.value.value, r.value.rest))
  {
    assert ([k] + ks)[1..] == ks;
  }

  /** The field `f` at the head of `enc` reads back and hands the rest of the stream to
      the fields after it. */
  lemma DecodeFieldsCons(f: Field, fs: seq<Field>, tail: seq<uint8>, enc: seq<uint8>, ks: seq<Kind>,
                         all: seq<Field>, more: seq<uint8>, n: nat)
    requires enc == EncodeField(f) + tail && ks == [f.Kind()] + KindsOf(fs) && all == [f] + fs
    requires n <= |enc| + |more|
    requires |EncodeField(f)| <= n ==>
      ReadsBack(DecodeFields(KindsOf(fs), (tail + more)[..n - |EncodeField(f)|]), fs, tail, more, n - |EncodeField(f)|)
    ensures ReadsBack(DecodeFields(ks, (enc + more)[..n]), all, enc, more, n)
  {
    var head := EncodeField(f);
    Assoc(head, tail, more);
    var t := (head + (tail + more))[..n];
    DecodeFieldReadsBack(f, tail + more, n);
    DecodeFieldsStep(f.Kind(), KindsOf(fs), t);
    if |head| <= n {
      Chain(DecodeField(f.Kind(), t), f, head, DecodeFields(KindsOf(fs), (tail + more)[..n - |head|]),
            fs, tail, DecodeFields(ks, t), all, more, n);
    }
  }

  /** No fields read back as none. */
  lemma DecodeFieldsNone(more: seq<uint8>, n: nat)
    requires n <= |more|
    ensures ReadsBack(DecodeFields(KindsOf([]), (EncodeFields([]) + more)[..n]), [], EncodeFields([]), more, n)
  {
    assert EncodeFields([]) + more == more;
  }

  /** A non-empty run of fields is its first field and the rest. */
  lemma FieldsSplit(fs: seq<Field>)
    requires fs != []
    ensures EncodeFields(fs) == EncodeField(fs[0]) + EncodeFields(fs[1..])
    ensures KindsOf(fs) == [fs[0].Kind()] + KindsOf(fs[1..]) && fs == [fs[0]] + fs[1..]
  {
  }

  /** A run of fields reads back as written. */
  lemma {:induction false} DecodeFieldsReadsBack(fs: seq<Field>, more: seq<uint8>, n: nat)
    requires n <= |EncodeFields(fs)| + |more|
    ensures ReadsBack(DecodeFields(KindsOf(fs), (EncodeFields(fs) + more)[..n]), fs, EncodeFields(fs), more, n)
  {
    if fs == [] {
      DecodeFieldsNone(more, n);
    } else {
      FieldsSplit(fs);
      if |EncodeField(fs[0])| <= n {
        DecodeFieldsReadsBack(fs[1..], more, n - |EncodeField(fs[0])|);
      }
      DecodeFieldsCons(fs[0], fs[1..], EncodeFields(fs[1..]), EncodeFields(fs), KindsOf(fs), fs, more, n);
    }
  }

  /** The header's fields come back as `readHeader` normalises them. */
  lemma HeaderOfFields(h: CacheHeader)
    ensures KindsOf(FieldsOf(h)) == HEADER_FIELDS
    ensures HeaderOf(FieldsOf(h), h.responseHeaders.GetOr(map[])) == NormalHeader(h)
  {
    var fs := FieldsOf(h);
    forall i | 0 <= i < 7
      ensures KindsOf(fs)[i] == HEADER_FIELDS[i]
    {
      KindsOfAt(fs, i);
    }
  }

  /** The rest of readHeader, once its fields have been read. */
  lemma DecodeHeaderFieldsStep(t: seq<uint8>)
    ensures var r1 := DecodeFields(HEADER_FIELDS, t);
      r1.Ok? ==>
        var r2 := DecodeStringStringMap(r1.value.rest);
        DecodeHeaderFields(t) == if r2.Err? then Err(r2.error)
                                 else Ok(Read(HeaderOf(r1.value.value, r2.value.value), r2.value.rest))
  {
  }

  /** Fields that read back as `fs` followed by a map that reads back as `m` read back as
      the header `readHeader` builds of them. */
  lemma FieldsThenMapReadsBack(fields: seq<uint8>, fs: seq<Field>, rh: seq<uint8>, m: Headers, v: CacheHeader,
                               more: seq<uint8>, n: nat)
    requires KindsOf(fs) == HEADER_FIELDS && HeaderOf(fs, m) == v
    requires n <= |fields| + |rh| + |more|
    requires ReadsBack(DecodeFields(KindsOf(fs), (fields + (rh + more))[..n]), fs, fields, rh + more, n)
    requires |fields| <= n ==> ReadsBack(DecodeStringStringMap((rh + more)[..n - |fields|]), m, rh, more, n - |fields|)
    ensures ReadsBack(DecodeHeaderFields((fields + rh + more)[..n]), v, fields + rh, more, n)
  {
    Assoc(fields, rh, more);
    var t := (fields + (rh + more))[..n];
    if |fields| <= n {
      ReadsBackAfter(DecodeHeaderFields(t), v, fields, rh, more, n);
    }
  }

  /** Fields `fs` of the header's kinds, then the map `hm`, read back as the header
      `readHeader` builds of them. */
  lemma DecodeFieldsThenMapReadsBack(fs: seq<Field>, hm: Option<Headers>, order: seq<Bytes>, v: CacheHeader,
                                     more: seq<uint8>, n: nat)
    requires KindsOf(fs) == HEADER_FIELDS && HeaderOf(fs, hm.GetOr(map[])) == v && Orders(hm, order)
    requires n <= |EncodeFields(fs)| + |EncodeStringStringMap(hm, order)| + |more|
    ensures ReadsBack(DecodeHeaderFields((EncodeFields(fs) + EncodeStringStringMap(hm, order) + more)[..n]),
                      v, EncodeFields(fs) + EncodeStringStringMap(hm, order), more, n)
  {
    var fields, rh := EncodeFields(fs), EncodeStringStringMap(hm, order);
    DecodeFieldsReadsBack(fs, rh + more, n);
    if |fields| <= n {
      DecodeStringStringMapReadsBack(hm, order, more, n - |fields|);
    }
    FieldsThenMapReadsBack(fields, fs, rh, hm.GetOr(map[]), v, more, n);
  }

  /** Everything after the magic reads back as written. */
  lemma DecodeHeaderFieldsReadsBack(h: CacheHeader, order: seq<Bytes>, more: seq<uint8>, n: nat)
    requires Orders(h.responseHeaders, order)
    requires n <= |EncodeFields(FieldsOf(h))| + |EncodeStringStringMap(h.responseHeaders, order)| + |more|
    ensures ReadsBack(DecodeHeaderFields((EncodeFields(FieldsOf(h)) + EncodeStringStringMap(h.responseHeaders, order) + more)[..n]),
                      NormalHeader(h), EncodeFields(FieldsOf(h)) + EncodeStringStringMap(h.responseHeaders, order), more, n)
  {
    HeaderOfFields(h);
    DecodeFieldsThenMapReadsBack(FieldsOf(h), h.responseHeaders, order, NormalHeader(h), more, n);
  }

  /** readHeader reads back what writeHeader wrote, up to the etag and map normalisation;
      a stream cut short gives an IOException. */
  lemma DecodeHeaderReadsBack(h: CacheHeader, order: seq<Bytes>, more: seq<uint8>, n: nat)
    requires Orders(h.responseHeaders, order)
    requires n <= |EncodeHeader(h, order)| + |more|
    ensures ReadsBack(DecodeHeader((EncodeHeader(h, order) + more)[..n]), NormalHeader(h), EncodeHeader(h, order), more, n)
  {
    var magic, body := EncodeInt(CACHE_MAGIC), EncodeFields(FieldsOf(h)) + EncodeStringStringMap(h.responseHeaders, order);
    Assoc(magic, body, more);
    var t := (magic + (body + more))[..n];
    DecodeIntReadsBack(CACHE_MAGIC, body + more, n);
    if 4 <= n {
      DecodeHeaderFieldsReadsBack(h, order, more, n - 4);
      Chain(DecodeInt(t), CACHE_MAGIC, magic, DecodeHeaderFields((body + more)[..n - 4]), NormalHeader(h), body,
            DecodeHeader(t), NormalHeader(h), more, n);
    }
  }

  /** The entry `get` makes of a header normalised by the round trip is the normalised entry. */
  lemma CacheEntryOfHeader(key: Bytes, e: Entry)
    ensures ToCacheEntry(NormalHeader(HeaderFor(key, e)), e.data) == Normalized(e)
  {
  }

  /** A header that reads back as `hv`, announcing `|data|` bytes, followed by `data`
      reads back as the entry `get` makes of them. */
  lemma HeaderThenDataReadsBack(header: seq<uint8>, hv: CacheHeader, data: Bytes, e: Entry, more: seq<uint8>, n: nat)
    requires hv.size == |data| && ToCacheEntry(hv, data) == e
    requires n <= |header| + |data| + |more|
    requires ReadsBack(DecodeHeader((header + (data + more))[..n]), hv, header, data + more, n)
    ensures |header| + |data| <= n ==> DecodeRecord((header + data + more)[..n]) == Ok(e)
    ensures n < |header| + |data| ==>
      var r := DecodeRecord((header + data + more)[..n]); r.Err? && IsIOException(r.error)
  {
    Assoc(header, data, more);
    if |header| <= n {
      DecodeBytesReadsBack(data, more, n - |header|);
      Int32Keeps(|data|);
    }
  }

  /** get reads back what put wrote, once all of it arrives, whatever follows it; a stream
      that ends early gives an IOException. */
  lemma DecodeRecordReadsBack(key: Bytes, e: Entry, order: seq<Bytes>, more: seq<uint8>, n: nat)
    requires Orders(e.responseHeaders, order)
    requires n <= |EncodeRecord(key, e, order)| + |more|
    ensures |EncodeRecord(key, e, order)| <= n ==>
      DecodeRecord((EncodeRecord(key, e, order) + more)[..n]) == Ok(Normalized(e))
    ensures n < |EncodeRecord(key, e, order)| ==>
      var r := DecodeRecord((EncodeRecord(key, e, order) + more)[..n]); r.Err? && IsIOException(r.error)
  {
    var h := HeaderFor(key, e);
    DecodeHeaderReadsBack(h, order, e.data + more, n);
    CacheEntryOfHeader(key, e);
    HeaderThenDataReadsBack(EncodeHeader(h, order), NormalHeader(h), e.data, Normalized(e), more, n);
  }

  /** writeInt then readInt, with anything after it. */
  lemma IntReadBack(x: int32, more: seq<uint8>)
    ensures DecodeInt(EncodeInt(x) + more) == Ok(Read(x, more))
  {
    DecodeIntReadsBack(x, more, 4 + |more|);
    assert (EncodeInt(x) + more)[..4 + |more|] == EncodeInt(x) + more;
    assert more[..|more|] == more;
  }

  /** writeLong then readLong, with anything after it. */
  lemma LongReadBack(x: int64, more: seq<uint8>)
    ensures DecodeLong(EncodeLong(x) + more) == Ok(Read(x, more))
  {
    DecodeLongReadsBack(x, more, 8 + |more|);
    assert (EncodeLong(x) + more)[..8 + |more|] == EncodeLong(x) + more;
    assert more[..|more|] == more;
  }

  /** writeString then readString, with anything after it. */
  lemma StringReadBack(b: Bytes, more: seq<uint8>)
    ensures DecodeString(EncodeString(b) + more) == Ok(Read(b, more))
  {
    var n := |EncodeString(b) + more|;
    DecodeStringReadsBack(b, more, n);
    assert (EncodeString(b) + more)[..n] == EncodeString(b) + more;
    assert more[..|more|] == more;
  }

  /** writeStringStringMap then readStringStringMap, with anything after it; null comes
      back as the empty map. */
  lemma StringStringMapReadBack(m: Option<Headers>, order: seq<Bytes>, more: seq<uint8>)
    requires Orders(m, order)
    ensures DecodeStringStringMap(EncodeStringStringMap(m, order) + more) == Ok(Read(m.GetOr(map[]), more))
  {
    var n := |EncodeStringStringMap(m, order) + more|;
    DecodeStringStringMapReadsBack(m, order, more, n);
    assert (EncodeStringStringMap(m, order) + more)[..n] == EncodeStringStringMap(m, order) + more;
    assert more[..|more|] == more;
  }

  /** writeHeader then readHeader, with anything after it. */
  lemma HeaderRoundTrip(h: CacheHeader, order: seq<Bytes>, more: seq<uint8>)
    requires Orders(h.responseHeaders, order)
    ensures DecodeHeader(EncodeHeader(h, order) + more) == Ok(Read(NormalHeader(h), more))
  {
    var n := |EncodeHeader(h, order) + more|;
    DecodeHeaderReadsBack(h, order, more, n);
    assert (EncodeHeader(h, order) + more)[..n] == EncodeHeader(h, order) + more;
    assert more[..|more|] == more;
  }

  /** What put writes, get reads back. */
  lemma RecordRoundTrip(key: Bytes, e: Entry, order: seq<Bytes>)
    requires Orders(e.responseHeaders, order)
    ensures DecodeRecord(EncodeRecord(key, e, order)) == Ok(Normalized(e))
  {
    var s := EncodeRecord(key, e, order);
    DecodeRecordReadsBack(key, e, order, [], |s|);
    assert (s + [])[..|s|] == s;
  }

  /** A slot holding less than the whole record never yields a partial entry: get throws
      an IOException. */
  lemma TruncatedRecordFails(key: Bytes, e: Entry, order: seq<Bytes>, t: seq<uint8>)
    requires Orders(e.responseHeaders, order)
    requires t < EncodeRecord(key, e, order)
    ensures DecodeRecord(t).Err? && IsIOException(DecodeRecord(t).error)
  {
    var s := EncodeRecord(key, e, order);
    DecodeRecordReadsBack(key, e, order, [], |t|);
    assert (s + [])[..|t|] == t;
  }

  /** readHeader throws an IOException unless the stream begins with the magic number as
      writeInt writes it. */
  lemma MagicChecked(s: seq<uint8>)
    requires 4 <= |s| && s[..4] != EncodeInt(CACHE_MAGIC)
    ensures DecodeHeader(s) == Err(BadMagic)
  {
    IntBytesRoundTrip(s[..4]);
  }

  /** A stream too short for the magic throws EOF. */
  lemma MagicNeedsFourBytes(s: seq<uint8>)
    requires |s| < 4
    ensures DecodeHeader(s) == Err(EndOfStream)
  {
  }
}
