/** Java's primitive widths, null as Option, exceptions as Result, and the few
    helpers the other modules share. */
module Lang {

  /** A byte as an InputStream delivers it (0..255). */
  type uint8 = x: int | 0 <= x < 0x100

  /** Java `int`. */
  type int32 = x: int | -0x8000_0000 <= x < 0x8000_0000

  /** Java `long`. */
  type int64 = x: int | -0x8000_0000_0000_0000 <= x < 0x8000_0000_0000_0000

  /** A Java `byte[]`: its length is an `int`. */
  type Bytes = s: seq<uint8> | |s| < 0x8000_0000

  /** A Java reference that may be null. */
  datatype Option<+T> = None | Some(value: T) {
    function GetOr(default: T): T {
      if Some? then value else default
    }
  }

  /** A value or a thrown exception; failure-compatible for `:-`. */
  datatype Result<+T, +E> = Ok(value: T) | Err(error: E) {
    predicate IsFailure() { Err? }
    function PropagateFailure<U>(): Result<U, E> requires Err? { Err(error) }
    function Extract(): T requires Ok? { value }
  }

  /** `TextUtils.isEmpty`: null or of length zero. */
  predicate IsEmpty(s: Option<string>) {
    s.None? || s.value == ""
  }

  /** The Java narrowing cast `(int) x`: keep the low 32 bits, read as two's complement. */
  function ToInt32(x: int): int32 {
    var u := x % 0x1_0000_0000;
    if u < 0x8000_0000 then u else u - 0x1_0000_0000
  }

  /** The cast keeps every value that fits in an int. */
  lemma Int32Keeps(x: int)
    requires -0x8000_0000 <= x < 0x8000_0000
    ensures ToInt32(x) == x
  {
  }

  /** An int survives being reduced to its low 32 bits and cast back. */
  lemma Int32Wraps(n: int32)
    ensures ToInt32(n % 0x1_0000_0000) == n
  {
    assert n % 0x1_0000_0000 == if n < 0 then n + 0x1_0000_0000 else n;
  }

  /** Casting 32 unsigned bits to an int keeps them. */
  lemma Int32Bits(u: int)
    requires 0 <= u < 0x1_0000_0000
    ensures ToInt32(u) % 0x1_0000_0000 == u
  {
  }

  /** Reading 64 bits as a two's-complement `long`. */
  function ToInt64(x: int): int64 {
    var u := x % 0x1_0000_0000_0000_0000;
    if u < 0x8000_0000_0000_0000 then u else u - 0x1_0000_0000_0000_0000
  }

  /** A long survives being reduced to its low 64 bits and read back. */
  lemma Int64Wraps(n: int64)
    ensures ToInt64(n % 0x1_0000_0000_0000_0000) == n
  {
    assert n % 0x1_0000_0000_0000_0000 == if n < 0 then n + 0x1_0000_0000_0000_0000 else n;
  }

  /** Reading 64 unsigned bits as a long keeps them. */
  lemma Int64Bits(u: int)
    requires 0 <= u < 0x1_0000_0000_0000_0000
    ensures ToInt64(u) % 0x1_0000_0000_0000_0000 == u
  {
  }

  /** `order` lists exactly the keys of a map, as iterating its entry set does. */
  ghost predicate Enumerates<K>(order: seq<K>, keys: set<K>) {
    |order| == |keys| && (forall k :: k in keys ==> k in order) && (forall i :: 0 <= i < |order| ==> order[i] in keys)
  }

  /** A sequence with a repeated element has fewer distinct elements than positions. */
  lemma {:induction false} RepeatShrinks<K>(order: seq<K>, i: nat, j: nat)
    requires i < j < |order| && order[i] == order[j]
    ensures |set k | k in order| < |order|
    decreases |order|
  {
    var rest := order[1..];
    assert (set k | k in order) == {order[0]} + (set k | k in rest) by {
      forall k | k in order ensures k == order[0] || k in rest {
        var m :| 0 <= m < |order| && order[m] == k;
        if m > 0 { assert rest[m - 1] == k; }
      }
    }
    SetOfSeqBound(rest);
    if i == 0 {
      assert rest[j - 1] == order[0];
    } else {
      RepeatShrinks(rest, i - 1, j - 1);
    }
  }

  /** A sequence has at most as many distinct elements as positions. */
  lemma {:induction false} SetOfSeqBound<K>(order: seq<K>)
    ensures |set k | k in order| <= |order|
    decreases |order|
  {
    if order != [] {
      var rest := order[1..];
      assert (set k | k in order) == {order[0]} + (set k | k in rest) by {
        forall k | k in order ensures k == order[0] || k in rest {
          var m :| 0 <= m < |order| && order[m] == k;
          if m > 0 { assert rest[m - 1] == k; }
        }
      }
      SetOfSeqBound(rest);
    }
  }

  /** An order that enumerates a set lists each element once. */
  lemma EnumeratesDistinct<K>(order: seq<K>, keys: set<K>, i: nat, j: nat)
    requires Enumerates(order, keys) && i < j < |order|
    ensures order[i] != order[j]
  {
    if order[i] == order[j] {
      assert (set k | k in order) == keys;
      RepeatShrinks(order, i, j);
    }
  }
}
