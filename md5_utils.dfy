/** MD5Utils: the slot name of a cache key is the hex form of the MD5 digest of its
    bytes.  The digest itself is a parameter (`md5`); only its length is relied on. */
module Md5 {
  import opened Lang

  /** An MD5 digest: 16 bytes. */
  type Digest = d: seq<uint8> | |d| == 16 witness seq(16, _ => 0)

  /** One of `0-9a-f`, the characters of `hexDigits`. */
  predicate IsHexDigit(c: char) {
    '0' <= c <= '9' || 'a' <= c <= 'f'
  }

  /** `hexDigits[n]`: the table lists `0-9` then `a-f`. */
  function HexDigit(n: int): (c: char)
    requires 0 <= n < 16
    ensures IsHexDigit(c)
  {
    if n < 10 then ('0' as int + n) as char else ('a' as int + n - 10) as char
  }

  /** Different nibbles have different digits. */
  lemma HexDigitInjective(m: int, n: int)
    requires 0 <= m < 16 && 0 <= n < 16
    ensures HexDigit(m) == HexDigit(n) ==> m == n
  {
  }

  // ---------------------------------------------------------------------
  // byteArrayToHex as written

  /** In Java `>>` binds tighter than `&`, so `bytes[i] & 0xf0 >> 4` is
      `bytes[i] & 0x0f`: the low nibble (sign extension of the byte leaves it alone). */
  function FirstNibbleAsWritten(b: uint8): (n: int)
    ensures n == b % 16
  {
    (b as bv8 & (0xf0 >> 4)) as int
  }

  /** What byteArrayToHex returns: for each byte, its first and its second hex
      character, the first being the low nibble too. */
  function LowNibbleHex(bytes: seq<uint8>): (s: string)
    ensures |s| == 2 * |bytes|
  {
    if bytes == [] then []
    else
      var b := bytes[|bytes| - 1];
      LowNibbleHex(bytes[..|bytes| - 1]) + [HexDigit(FirstNibbleAsWritten(b)), HexDigit(b % 16)]
  }

  /** `byteArrayToHex`: fills `char[bytes.length * 2]` two characters per byte. */
  method ByteArrayToHex(bytes: seq<uint8>) returns (s: string)
    ensures s == LowNibbleHex(bytes)
  {
    var hexs := new char[|bytes| * 2];
    var i := 0;
    while i < |bytes|
      invariant 0 <= i <= |bytes|
      invariant hexs[..2 * i] == LowNibbleHex(bytes[..i])
    {
      var c0 := HexDigit(FirstNibbleAsWritten(bytes[i]));
      var c1 := HexDigit(bytes[i] % 16);
      hexs[i * 2] := c0;
      hexs[i * 2 + 1] := c1;
      assert bytes[..i + 1][..i] == bytes[..i];
      assert hexs[..2 * (i + 1)] == hexs[..2 * i] + [c0, c1];
      i := i + 1;
    }
    assert bytes[..i] == bytes;
    assert hexs[..] == hexs[..2 * i];
    return hexs[..];
  }

  /** Both characters for byte `i` are the digit of its low nibble. */
  lemma {:induction false} LowNibbleHexAt(bytes: seq<uint8>, i: nat)
    requires i < |bytes|
    ensures LowNibbleHex(bytes)[2 * i] == HexDigit(bytes[i] % 16)
    ensures LowNibbleHex(bytes)[2 * i + 1] == HexDigit(bytes[i] % 16)
    decreases |bytes|
  {
    var init := bytes[..|bytes| - 1];
    if i < |bytes| - 1 {
      LowNibbleHexAt(init, i);
      assert init[i] == bytes[i];
    }
  }

  /** Every character byteArrayToHex returns is one of `0-9a-f`. */
  lemma LowNibbleHexDigits(bytes: seq<uint8>, j: nat)
    requires j < |LowNibbleHex(bytes)|
    ensures IsHexDigit(LowNibbleHex(bytes)[j])
  {
    LowNibbleHexAt(bytes, j / 2);
    assert j == 2 * (j / 2) || j == 2 * (j / 2) + 1;
  }

  /** byteArrayToHex forgets the high nibble: the digests `01 00 .. 00` and
      `11 00 .. 00` get the same name. */
  lemma LowNibbleHexCollides()
    ensures var a, b := [0x01] + seq(15, _ => 0), [0x11] + seq(15, _ => 0);
      a != b && LowNibbleHex(a) == LowNibbleHex(b)
  {
    var a: seq<uint8>, b: seq<uint8> := [0x01] + seq(15, _ => 0), [0x11] + seq(15, _ => 0);
    assert a[0] != b[0];
    assert forall i :: 0 <= i < 16 ==> a[i] % 16 == b[i] % 16;
    LowNibbleHexSameNibbles(a, b);
  }

  /** Sequences with the same low nibbles get the same byteArrayToHex. */
  lemma {:induction false} LowNibbleHexSameNibbles(a: seq<uint8>, b: seq<uint8>)
    requires |a| == |b| && forall i :: 0 <= i < |a| ==> a[i] % 16 == b[i] % 16
    ensures LowNibbleHex(a) == LowNibbleHex(b)
    decreases |a|
  {
    if a != [] {
      LowNibbleHexSameNibbles(a[..|a| - 1], b[..|b| - 1]);
    }
  }

  // ---------------------------------------------------------------------
  // The hex form intended

  /** Two hex characters per byte, high nibble first: what `(bytes[i] & 0xf0) >> 4`
      would give. */
  function Hex(bytes: seq<uint8>): (s: string)
    ensures |s| == 2 * |bytes|
  {
    if bytes == [] then []
    else
      var b := bytes[|bytes| - 1];
      Hex(bytes[..|bytes| - 1]) + [HexDigit(b / 16), HexDigit(b % 16)]
  }

  /** Byte `i` becomes its high digit then its low digit. */
  lemma {:induction false} HexAt(bytes: seq<uint8>, i: nat)
    requires i < |bytes|
    ensures Hex(bytes)[2 * i] == HexDigit(bytes[i] / 16)
    ensures Hex(bytes)[2 * i + 1] == HexDigit(bytes[i] % 16)
    decreases |bytes|
  {
    var init := bytes[..|bytes| - 1];
    if i < |bytes| - 1 {
      HexAt(init, i);
      assert init[i] == bytes[i];
    }
  }

  /** Every character of the hex form is one of `0-9a-f`. */
  lemma HexDigits(bytes: seq<uint8>, j: nat)
    requires j < |Hex(bytes)|
    ensures IsHexDigit(Hex(bytes)[j])
  {
    HexAt(bytes, j / 2);
    assert j == 2 * (j / 2) || j == 2 * (j / 2) + 1;
  }

  /** The hex form keeps every byte: different digests get different names. */
  lemma HexInjective(a: seq<uint8>, b: seq<uint8>)
    requires Hex(a) == Hex(b)
    ensures a == b
  {
    assert |a| == |b|;
    forall i | 0 <= i < |a|
      ensures a[i] == b[i]
    {
      HexAt(a, i);
      HexAt(b, i);
      HexDigitInjective(a[i] / 16, b[i] / 16);
      HexDigitInjective(a[i] % 16, b[i] % 16);
    }
  }

  // ---------------------------------------------------------------------
  // Digests and names

  /** `MD5Encode`: null stays null; otherwise the digest. */
  function MD5Encode(md5: Bytes -> Digest, bytes: Option<Bytes>): (r: Option<Digest>)
    ensures r.None? <==> bytes.None?
    ensures r.Some? ==> r.value == md5(bytes.value)
  {
    if bytes.None? then None else Some(md5(bytes.value))
  }

  /** `getMD5(byte[])`: null stays null; otherwise byteArrayToHex of the digest, as
      written: 32 characters of `0-9a-f`, two per byte, both from the low nibble. */
  function GetMD5(md5: Bytes -> Digest, bytes: Option<Bytes>): (r: Option<string>)
    ensures r.None? <==> bytes.None?
    ensures r.Some? ==> r.value == LowNibbleHex(md5(bytes.value))
    ensures r.Some? ==> |r.value| == 32 && forall j :: 0 <= j < 32 ==> IsHexDigit(r.value[j])
  {
    match MD5Encode(md5, bytes)
    case None => None
    case Some(d) =>
      assert forall j :: 0 <= j < 32 ==> IsHexDigit(LowNibbleHex(d)[j]) by {
        forall j | 0 <= j < 32 { LowNibbleHexDigits(d, j); }
      }
      Some(LowNibbleHex(d))
  }

  /** Two byte arrays get the same name from `getMD5` exactly when their digests agree
      in every low nibble: the high nibbles are lost. */
  lemma GetMD5SameName(md5: Bytes -> Digest, a: Bytes, b: Bytes)
    ensures GetMD5(md5, Some(a)) == GetMD5(md5, Some(b)) <==>
      forall i :: 0 <= i < 16 ==> md5(a)[i] % 16 == md5(b)[i] % 16
  {
    var da, db := md5(a), md5(b);
    if forall i :: 0 <= i < 16 ==> da[i] % 16 == db[i] % 16 {
      LowNibbleHexSameNibbles(da, db);
    } else {
      var i :| 0 <= i < 16 && da[i] % 16 != db[i] % 16;
      LowNibbleHexAt(da, i);
      LowNibbleHexAt(db, i);
      HexDigitInjective(da[i] % 16, db[i] % 16);
    }
  }

  /** `UnsupportedEncodingException`. */
  datatype UnsupportedEncoding = UnsupportedEncoding

  /** `getMD5(str, encoding)`: null for a null or empty string; otherwise the name of the
      string's bytes, `str.getBytes()` in the platform default charset (which always
      succeeds) when `encoding` is null, and `str.getBytes(encoding)` otherwise, which is
      `None` when the charset is unknown. */
  function GetMD5OfString(md5: Bytes -> Digest, defaultBytes: string -> Bytes,
                          getBytes: (string, string) -> Option<Bytes>,
                          str: Option<string>, encoding: Option<string>): (r: Result<Option<string>, UnsupportedEncoding>)
    ensures IsEmpty(str) ==> r == Ok(None)
    ensures !IsEmpty(str) && encoding.None? ==>
      r == Ok(GetMD5(md5, Some(defaultBytes(str.value)))) && r.value.Some?
    ensures !IsEmpty(str) && encoding.Some? ==>
      match getBytes(str.value, encoding.value)
      case None => r == Err(UnsupportedEncoding)
      case Some(b) => r == Ok(GetMD5(md5, Some(b))) && r.value.Some?
  {
    if IsEmpty(str) then Ok(None)
    else if encoding.None? then Ok(GetMD5(md5, Some(defaultBytes(str.value))))
    else
      match getBytes(str.value, encoding.value)
      case None => Err(UnsupportedEncoding)
      case Some(b) => Ok(GetMD5(md5, Some(b)))
  }

  /** A hex name as the bytes `getBytes` gives for it: every hex digit is one ASCII byte. */
  function NameBytes(name: string): (b: Bytes)
    requires |name| < 0x8000_0000 && forall j :: 0 <= j < |name| ==> IsHexDigit(name[j])
    ensures |b| == |name| && forall j :: 0 <= j < |name| ==> b[j] == name[j] as int
  {
    if name == [] then []
    else
      assert IsHexDigit(name[0]);
      [name[0] as int] + NameBytes(name[1..])
  }
}
