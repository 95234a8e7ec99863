/** The stream readers and writers of DiskLruBasedCache, written step by step as
    the Java code consumes its InputStream and fills its OutputStream, each proved
    to compute what the codec of module CacheRecord specifies.

    An InputStream is the bytes it has yet to deliver; `chunk` is the most that one
    `read(buffer, offset, count)` call hands over (the stream may deliver less than
    asked, never zero bytes before its end).  An OutputStream is a `Sink`: the bytes
    it has accepted and how many more it accepts before a write throws. */
module CacheStreams {
  import opened Lang
  import opened CacheRecord

  /** An OutputStream: the bytes it has accepted, and how many more it accepts before a
      write throws an IOException. */
  datatype Sink = Sink(written: seq<uint8>, room: nat)

  function Min(a: int, b: int): int {
    if a <= b then a else b
  }

  // ---------------------------------------------------------------------
  // Reading

  /** `streamToBytes(in, length)`: allocate `new byte[length]`, then call `read` until
      `length` bytes have arrived or the stream ends. */
  method StreamToBytes(input: seq<uint8>, length: int32, chunk: nat) returns (r: Decoded<Bytes>)
    requires 0 < chunk
    ensures r == DecodeBytes(input, length)
  {
    if length < 0 {
      return Err(NegativeArraySize);
    }
    var bytes := new uint8[length];
    var pos := 0;
    var rest := input;
    var ended := false;
    while pos < length as int && !ended
      invariant 0 <= pos <= length as int && pos <= |input|
      invariant rest == input[pos..]
      invariant bytes[..pos] == input[..pos]
      invariant ended ==> rest == []
      decreases length as int - pos, if ended then 0 else 1
    {
      if rest == [] {
        ended := true;   // read returns -1
      } else {
        var count := Min(Min(chunk, length as int - pos), |rest|);
        forall i | pos <= i < pos + count {
          bytes[i] := rest[i - pos];
        }
        assert bytes[..pos + count] == input[..pos] + rest[..count];
        pos := pos + count;
        rest := rest[count..];
      }
    }
    if pos != length as int {
      return Err(ShortRead);
    }
    assert bytes[..] == bytes[..pos];
    return Ok(Read(bytes[..], rest));
  }

  /** `readString`: a long, narrowed to an int, then that many bytes. */
  method ReadString(input: seq<uint8>, chunk: nat) returns (r: Decoded<Bytes>)
    requires 0 < chunk
    ensures r == DecodeString(input)
  {
    var n := DecodeLong(input);
    if n.Err? {
      return Err(n.error);
    }
    r := StreamToBytes(n.value.rest, ToInt32(n.value.value), chunk);
  }

  /** `readHeader` has read the fields `done` from `t0` and stands at `t` with the
      fields of kinds `ks` to go: reading those finishes the run of fields from `t0`. */
  ghost predicate FieldsSoFar(t0: seq<uint8>, done: seq<Field>, ks: seq<Kind>, t: seq<uint8>) {
    var all, rest := DecodeFields(HEADER_FIELDS, t0), DecodeFields(ks, t);
    (rest.Err? ==> all == Err(rest.error)) &&
    (rest.Ok? ==> all == Ok(Read(done + rest.value.value, rest.value.rest)))
  }

  lemma FieldsStart(t0: seq<uint8>)
    ensures FieldsSoFar(t0, [], HEADER_FIELDS, t0)
  {
    var all := DecodeFields(HEADER_FIELDS, t0);
    if all.Ok? {
      assert [] + all.value.value == all.value.value;
    }
  }

  /** An exception reading the next field ends the run of fields. */
  lemma FieldsAdvanceErr(t0: seq<uint8>, done: seq<Field>, ks: seq<Kind>, t: seq<uint8>)
    requires ks != [] && FieldsSoFar(t0, done, ks, t)
    ensures var f := DecodeField(ks[0], t);
      f.Err? ==> DecodeFields(HEADER_FIELDS, t0) == Err(f.error)
  {
    assert ks == [ks[0]] + ks[1..];
    DecodeFieldsStep(ks[0], ks[1..], t);
  }

  /** The next field read joins those read. */
  lemma FieldsAdvanceOk(t0: seq<uint8>, done: seq<Field>, ks: seq<Kind>, t: seq<uint8>)
    requires ks != [] && FieldsSoFar(t0, done, ks, t)
    ensures var f := DecodeField(ks[0], t);
      f.Ok? ==> FieldsSoFar(t0, done + [f.value.value], ks[1..], f.value.rest)
  {
    var f := DecodeField(ks[0], t);
    assert ks == [ks[0]] + ks[1..];
    DecodeFieldsStep(ks[0], ks[1..], t);
    if f.Ok? {
      var r := DecodeFields(ks[1..], f.value.rest);
      if r.Ok? {
        assert done + ([f.value.value] + r.value.value) == (done + [f.value.value]) + r.value.value;
      }
    }
  }

  /** One turn of the loop of `readStringStringMap`, as the key and the value are read. */
  lemma EntryStep(t: seq<uint8>)
    ensures DecodeString(t).Err? ==> DecodeEntry(t) == Err(DecodeString(t).error)
    ensures DecodeString(t).Ok? ==>
      var k := DecodeString(t).value;
      var v := DecodeString(k.rest);
      DecodeEntry(t) == if v.Err? then Err(v.error) else Ok(Read((k.value, v.value.value), v.value.rest))
  {
  }

  /** The body of the loop of `readStringStringMap`: a key string, then a value string. */
  method ReadEntry(input: seq<uint8>, chunk: nat) returns (r: Decoded<(Bytes, Bytes)>)
    requires 0 < chunk
    ensures r == DecodeEntry(input)
  {
    EntryStep(input);
    var key := ReadString(input, chunk);
    if key.Err? {
      return Err(key.error);
    }
    var value := ReadString(key.value.rest, chunk);
    if value.Err? {
      return Err(value.error);
    }
    return Ok(Read((key.value.value, value.value.value), value.value.rest));
  }

  /** A turn of the pair loop, given the entry it read. */
  lemma PairsTurn(t: seq<uint8>, count: nat, acc: Headers, entry: Decoded<(Bytes, Bytes)>)
    requires 0 < count && |acc| + count < 0x8000_0000 && entry == DecodeEntry(t)
    ensures entry.Err? ==> DecodePairs(t, count, acc) == Err(entry.error)
    ensures entry.Ok? ==>
      DecodePairs(t, count, acc) == DecodePairs(entry.value.rest, count - 1, acc[entry.value.value.0 := entry.value.value.1])
  {
    DecodePairsStep(t, count, acc);
  }

  /** `readStringStringMap`: the size, then `size` turns of the loop, each reading a key
      and a value and putting them into the map. */
  method ReadStringStringMap(input: seq<uint8>, chunk: nat) returns (r: Decoded<Headers>)
    requires 0 < chunk
    ensures r == DecodeStringStringMap(input)
  {
    var size := DecodeInt(input);
    if size.Err? {
      return Err(size.error);
    }
    var count := size.value.value;
    if count < 0 {
      return Err(NegativeCapacity);   // new HashMap(size)
    }
    DecodeStringStringMapStep(input);
    var result: Headers := map[];
    var rest := size.value.rest;
    var i := 0;
    while i < count
      invariant 0 <= i <= count && |result| <= i
      invariant DecodePairs(rest, count - i, result) == DecodeStringStringMap(input)
    {
      var entry := ReadEntry(rest, chunk);
      PairsTurn(rest, count - i, result, entry);
      if entry.Err? {
        return Err(entry.error);
      }
      result := result[entry.value.value.0 := entry.value.value.1];
      rest := entry.value.rest;
      i := i + 1;
    }
    return Ok(Read(result, rest));
  }

  /** `readHeader`: the magic first, then the fields in the order `writeHeader` wrote
      them, the empty etag read as null, then the map. */
  method ReadHeader(input: seq<uint8>, chunk: nat) returns (r: Decoded<CacheHeader>)
    requires 0 < chunk
    ensures r == DecodeHeader(input)
  {
    var magic := DecodeInt(input);
    if magic.Err? {
      return Err(magic.error);
    }
    if magic.value.value != CACHE_MAGIC {
      return Err(BadMagic);
    }
    r := ReadHeaderFields(magic.value.rest, chunk);
  }

  /** The rest of `readHeader`, after the magic. */
  method ReadHeaderFields(t0: seq<uint8>, chunk: nat) returns (r: Decoded<CacheHeader>)
    requires 0 < chunk
    ensures r == DecodeHeaderFields(t0)
  {
    FieldsStart(t0);
    ghost var done: seq<Field>, ks := [], HEADER_FIELDS;
    var size := DecodeLong(t0);
    FieldsAdvanceErr(t0, done, ks, t0);
    FieldsAdvanceOk(t0, done, ks, t0);
    if size.Err? {
      return Err(size.error);
    }
    done := done + [LongField(size.value.value)];
    ks := ks[1..];
    var key := ReadString(size.value.rest, chunk);
    FieldsAdvanceErr(t0, done, ks, size.value.rest);
    FieldsAdvanceOk(t0, done, ks, size.value.rest);
    if key.Err? {
      return Err(key.error);
    }
    done := done + [StringField(key.value.value)];
    ks := ks[1..];
    var etag := ReadString(key.value.rest, chunk);
    FieldsAdvanceErr(t0, done, ks, key.value.rest);
    FieldsAdvanceOk(t0, done, ks, key.value.rest);
    if etag.Err? {
      return Err(etag.error);
    }
    done := done + [StringField(etag.value.value)];
    ks := ks[1..];
    var serverDate := DecodeLong(etag.value.rest);
    FieldsAdvanceErr(t0, done, ks, etag.value.rest);
    FieldsAdvanceOk(t0, done, ks, etag.value.rest);
    if serverDate.Err? {
      return Err(serverDate.error);
    }
    done := done + [LongField(serverDate.value.value)];
    ks := ks[1..];
    var lastModified := DecodeLong(serverDate.value.rest);
    FieldsAdvanceErr(t0, done, ks, serverDate.value.rest);
    FieldsAdvanceOk(t0, done, ks, serverDate.value.rest);
    if lastModified.Err? {
      return Err(lastModified.error);
    }
    done := done + [LongField(lastModified.value.value)];
    ks := ks[1..];
    var ttl := DecodeLong(lastModified.value.rest);
    FieldsAdvanceErr(t0, done, ks, lastModified.value.rest);
    FieldsAdvanceOk(t0, done, ks, lastModified.value.rest);
    if ttl.Err? {
      return Err(ttl.error);
    }
    done := done + [LongField(ttl.value.value)];
    ks := ks[1..];
    var softTtl := DecodeLong(ttl.value.rest);
    FieldsAdvanceErr(t0, done, ks, ttl.value.rest);
    FieldsAdvanceOk(t0, done, ks, ttl.value.rest);
    if softTtl.Err? {
      return Err(softTtl.error);
    }
    done := done + [LongField(softTtl.value.value)];
    ks := ks[1..];
    assert ks == [] && done + [] == done;
    DecodeHeaderFieldsStep(t0);
    var responseHeaders := ReadStringStringMap(softTtl.value.rest, chunk);
    if responseHeaders.Err? {
      return Err(responseHeaders.error);
    }
    var h := CacheHeader(size.value.value, key.value.value, EtagIn(etag.value.value), serverDate.value.value,
                         lastModified.value.value, ttl.value.value, softTtl.value.value,
                         Some(responseHeaders.value.value));
    return Ok(Read(h, responseHeaders.value.rest));
  }

  // ---------------------------------------------------------------------
  // Writing

  /** `os.write(bytes)`: the stream accepts the bytes, or throws an IOException (`None`)
      when they do not fit in what it has room for. */
  function Emit(os: Sink, bytes: seq<uint8>): (r: Option<Sink>)
    ensures r.Some? <==> |bytes| <= os.room
    ensures r.Some? ==> r.value.written == os.written + bytes && r.value.room == os.room - |bytes|
  {
    if |bytes| <= os.room then Some(Sink(os.written + bytes, os.room - |bytes|)) else None
  }

  /** Two writes in a row accept what one write of both accepts. */
  lemma EmitConcat(os: Sink, a: seq<uint8>, b: seq<uint8>)
    ensures Emit(os, a + b) == if Emit(os, a).None? then None else Emit(Emit(os, a).value, b)
  {
    if |a| <= os.room && |a| + |b| <= os.room {
      assert os.written + (a + b) == os.written + a + b;
    }
  }

  /** `writeStringStringMap`: null as size 0; otherwise the size, then each entry of the
      entry set in iteration order `order`, key then value. */
  method WriteStringStringMap(m: Option<Headers>, order: seq<Bytes>, os: Sink) returns (r: Option<Sink>)
    requires Orders(m, order)
    ensures r == Emit(os, EncodeStringStringMap(m, order))
  {
    if m.None? {
      return Emit(os, EncodeInt(0));
    }
    var h := m.value;
    var es := EntriesOf(h, order);
    EmitConcat(os, EncodeInt(|h|), EncodeEntries(es));
    var size := Emit(os, EncodeInt(|h|));
    if size.None? {
      return None;
    }
    var cur := size.value;
    var i := 0;
    assert es[i..] == es;
    while i < |es|
      invariant 0 <= i <= |es|
      invariant Emit(os, EncodeStringStringMap(m, order)) == Emit(cur, EncodeEntries(es[i..]))
    {
      var (k, v) := es[i];
      assert es[i..][1..] == es[i + 1..];
      EmitConcat(cur, EncodeEntry(k, v), EncodeEntries(es[i + 1..]));
      EmitConcat(cur, EncodeString(k), EncodeString(v));
      var key := Emit(cur, EncodeString(k));
      if key.None? {
        return None;
      }
      var value := Emit(key.value, EncodeString(v));
      if value.None? {
        return None;
      }
      cur := value.value;
      i := i + 1;
    }
    assert es[i..] == [] && cur.written + [] == cur.written;
    return Some(cur);
  }

  lemma EncodeFieldsCons(f: Field, fs: seq<Field>)
    ensures EncodeFields([f] + fs) == EncodeField(f) + EncodeFields(fs)
  {
    assert ([f] + fs)[1..] == fs;
  }

  /** The bytes of the fields of a header, one write at a time. */
  lemma FieldsWrites(h: CacheHeader)
    ensures EncodeFields(FieldsOf(h)) ==
      EncodeLong(h.size) + (EncodeString(h.key) + (EncodeString(EtagOut(h.etag)) +
      (EncodeLong(h.serverDate) + (EncodeLong(h.lastModified) + (EncodeLong(h.ttl) + EncodeLong(h.softTtl))))))
  {
    var f6 := [LongField(h.softTtl)];
    var f5 := [LongField(h.ttl)] + f6;
    var f4 := [LongField(h.lastModified)] + f5;
    var f3 := [LongField(h.serverDate)] + f4;
    var f2 := [StringField(EtagOut(h.etag))] + f3;
    var f1 := [StringField(h.key)] + f2;
    assert FieldsOf(h) == [LongField(h.size)] + f1;
    EncodeFieldsCons(LongField(h.softTtl), []);
    assert [LongField(h.softTtl)] + [] == f6;
    assert EncodeFields(f6) == EncodeLong(h.softTtl) + [] == EncodeLong(h.softTtl);
    EncodeFieldsCons(LongField(h.ttl), f6);
    EncodeFieldsCons(LongField(h.lastModified), f5);
    EncodeFieldsCons(LongField(h.serverDate), f4);
    EncodeFieldsCons(StringField(EtagOut(h.etag)), f3);
    EncodeFieldsCons(StringField(h.key), f2);
    EncodeFieldsCons(LongField(h.size), f1);
  }

  /** The bytes of a header, one write at a time. */
  lemma HeaderWrites(h: CacheHeader, order: seq<Bytes>)
    requires Orders(h.responseHeaders, order)
    ensures EncodeHeader(h, order) ==
      EncodeInt(CACHE_MAGIC) + (EncodeLong(h.size) + (EncodeString(h.key) + (EncodeString(EtagOut(h.etag)) +
      (EncodeLong(h.serverDate) + (EncodeLong(h.lastModified) + (EncodeLong(h.ttl) + (EncodeLong(h.softTtl) +
      EncodeStringStringMap(h.responseHeaders, order))))))))
  {
    FieldsWrites(h);
    var m := EncodeStringStringMap(h.responseHeaders, order);
    var a, b, c, d, e, f, g := EncodeLong(h.size), EncodeString(h.key), EncodeString(EtagOut(h.etag)),
      EncodeLong(h.serverDate), EncodeLong(h.lastModified), EncodeLong(h.ttl), EncodeLong(h.softTtl);
    Assoc(f, g, m);
    Assoc(e, f + g, m);
    Assoc(d, e + (f + g), m);
    Assoc(c, d + (e + (f + g)), m);
    Assoc(b, c + (d + (e + (f + g))), m);
    Assoc(a, b + (c + (d + (e + (f + g)))), m);
  }

  /** `after` is `os` with a proper prefix of `bytes` accepted, and its room used up by
      exactly that much. */
  ghost predicate WrotePrefix(os: Sink, after: Sink, bytes: seq<uint8>) {
    os.written <= after.written && after.written < os.written + bytes &&
    after.room == os.room - (|after.written| - |os.written|)
  }

  /** A write of `piece` accepted after `done` has been, on the way to `whole`, which
      continues with `more`: the stream now holds `done + piece`. */
  lemma Advance(os: Sink, cur: Sink, done: seq<uint8>, piece: seq<uint8>, more: seq<uint8>, whole: seq<uint8>)
    requires cur.written == os.written + done && cur.room == os.room - |done|
    requires done + (piece + more) == whole
    requires Emit(cur, piece).Some?
    ensures Emit(cur, piece).value.written == os.written + (done + piece)
    ensures Emit(cur, piece).value.room == os.room - |done + piece|
    ensures (done + piece) + more == whole
  {
    Assoc(os.written, done, piece);
    Assoc(done, piece, more);
  }

  /** A write of `piece` refused after `done` has been, on the way to `whole`: what the
      stream holds is a proper prefix of `whole`. */
  lemma Stopped(os: Sink, cur: Sink, done: seq<uint8>, piece: seq<uint8>, more: seq<uint8>, whole: seq<uint8>)
    requires cur.written == os.written + done && cur.room == os.room - |done|
    requires done + (piece + more) == whole
    requires Emit(cur, piece).None?
    ensures WrotePrefix(os, cur, whole)
  {
    assert os.written + whole == cur.written + (piece + more);
  }

  /** `writeHeader`: the magic, the fields and the map, flushed; `true` when every write
      was accepted, `false` when one threw.  When a write throws, `after` holds the fields
      written whole before it (a string with its length is one field, the map another),
      which `put` then discards. */
  method WriteHeader(h: CacheHeader, order: seq<Bytes>, os: Sink) returns (success: bool, after: Sink)
    requires Orders(h.responseHeaders, order)
    ensures success <==> Emit(os, EncodeHeader(h, order)).Some?
    ensures success ==> after == Emit(os, EncodeHeader(h, order)).value
    ensures !success ==> WrotePrefix(os, after, EncodeHeader(h, order))
  {
    HeaderWrites(h, order);
    var etag := EtagOut(h.etag);
    var map_ := EncodeStringStringMap(h.responseHeaders, order);
    var tail := EncodeLong(h.ttl) + (EncodeLong(h.softTtl) + map_);
    var times := EncodeLong(h.serverDate) + (EncodeLong(h.lastModified) + tail);
    var strings := EncodeString(h.key) + (EncodeString(etag) + times);
    ghost var whole := EncodeHeader(h, order);
    ghost var done: seq<uint8> := [];
    assert os.written + done == os.written;
    EmitConcat(os, EncodeInt(CACHE_MAGIC), EncodeLong(h.size) + strings);
    var magic := Emit(os, EncodeInt(CACHE_MAGIC));
    if magic.None? {
      Stopped(os, os, done, EncodeInt(CACHE_MAGIC), EncodeLong(h.size) + strings, whole);
      return false, os;
    }
    Advance(os, os, done, EncodeInt(CACHE_MAGIC), EncodeLong(h.size) + strings, whole);
    done := done + EncodeInt(CACHE_MAGIC);
    EmitConcat(magic.value, EncodeLong(h.size), strings);
    var size := Emit(magic.value, EncodeLong(h.size));
    if size.None? {
      Stopped(os, magic.value, done, EncodeLong(h.size), strings, whole);
      return false, magic.value;
    }
    Advance(os, magic.value, done, EncodeLong(h.size), strings, whole);
    done := done + EncodeLong(h.size);
    EmitConcat(size.value, EncodeString(h.key), EncodeString(etag) + times);
    var key := Emit(size.value, EncodeString(h.key));
    if key.None? {
      Stopped(os, size.value, done, EncodeString(h.key), EncodeString(etag) + times, whole);
      return false, size.value;
    }
    Advance(os, size.value, done, EncodeString(h.key), EncodeString(etag) + times, whole);
    done := done + EncodeString(h.key);
    EmitConcat(key.value, EncodeString(etag), times);
    var etagOut := Emit(key.value, EncodeString(etag));
    if etagOut.None? {
      Stopped(os, key.value, done, EncodeString(etag), times, whole);
      return false, key.value;
    }
    Advance(os, key.value, done, EncodeString(etag), times, whole);
    done := done + EncodeString(etag);
    EmitConcat(etagOut.value, EncodeLong(h.serverDate), EncodeLong(h.lastModified) + tail);
    var serverDate := Emit(etagOut.value, EncodeLong(h.serverDate));
    if serverDate.None? {
      Stopped(os, etagOut.value, done, EncodeLong(h.serverDate), EncodeLong(h.lastModified) + tail, whole);
      return false, etagOut.value;
    }
    Advance(os, etagOut.value, done, EncodeLong(h.serverDate), EncodeLong(h.lastModified) + tail, whole);
    done := done + EncodeLong(h.serverDate);
    EmitConcat(serverDate.value, EncodeLong(h.lastModified), tail);
    var lastModified := Emit(serverDate.value, EncodeLong(h.lastModified));
    if lastModified.None? {
      Stopped(os, serverDate.value, done, EncodeLong(h.lastModified), tail, whole);
      return false, serverDate.value;
    }
    Advance(os, serverDate.value, done, EncodeLong(h.lastModified), tail, whole);
    done := done + EncodeLong(h.lastModified);
    EmitConcat(lastModified.value, EncodeLong(h.ttl), EncodeLong(h.softTtl) + map_);
    var ttl := Emit(lastModified.value, EncodeLong(h.ttl));
    if ttl.None? {
      Stopped(os, lastModified.value, done, EncodeLong(h.ttl), EncodeLong(h.softTtl) + map_, whole);
      return false, lastModified.value;
    }
    Advance(os, lastModified.value, done, EncodeLong(h.ttl), EncodeLong(h.softTtl) + map_, whole);
    done := done + EncodeLong(h.ttl);
    EmitConcat(ttl.value, EncodeLong(h.softTtl), map_);
    var softTtl := Emit(ttl.value, EncodeLong(h.softTtl));
    if softTtl.None? {
      Stopped(os, ttl.value, done, EncodeLong(h.softTtl), map_, whole);
      return false, ttl.value;
    }
    Advance(os, ttl.value, done, EncodeLong(h.softTtl), map_, whole);
    done := done + EncodeLong(h.softTtl);
    var headers := WriteStringStringMap(h.responseHeaders, order, softTtl.value);
    if headers.None? {
      assert map_ + [] == map_;
      Stopped(os, softTtl.value, done, map_, [], whole);
      return false, softTtl.value;
    }
    return true, headers.value;
  }
}
