/** Octets and the optional values shared by every component. */
module Octets {
  type byte = x: int | 0 <= x < 256

  type Bytes = seq<byte>

  datatype Option<+T> = None | Some(value: T)

  /** What a decoder does with octets: return a value, run off their end (IndexError or
      struct.error, which the parsers catch), or raise ValueError. */
  datatype Result<+T> = Ok(value: T) | Truncated | ValueError {
    predicate IsFailure() {
      !Ok?
    }

    function PropagateFailure<U>(): Result<U>
      requires IsFailure()
    {
      if Truncated? then Truncated else ValueError
    }

    function Extract(): T
      requires Ok?
    {
      value
    }
  }

  /** A decoded list with earlier elements put in front. */
  function Prefixed<T>(front: seq<T>, r: Result<seq<T>>): Result<seq<T>> {
    match r
    case Ok(rest) => Ok(front + rest)
    case Truncated => Truncated
    case ValueError => ValueError
  }

  lemma PrefixedNil<T>(r: Result<seq<T>>)
    ensures Prefixed([], r) == r
  {
    if r.Ok? {
      assert [] + r.value == r.value;
    }
  }

  lemma PrefixedTwice<T>(a: seq<T>, b: seq<T>, r: Result<seq<T>>)
    ensures Prefixed(a, Prefixed(b, r)) == Prefixed(a + b, r)
  {
    if r.Ok? {
      assert a + (b + r.value) == a + b + r.value;
    }
  }

  /** Bit `k` of an octet, as `octet & (1 << k)` tests it; `weight` is `1 << k`. */
  predicate Bit(octet: byte, weight: int)
    requires weight > 0
  {
    (octet / weight) % 2 == 1
  }

  /** What a slice `s[n:]` of a byte string holds: nothing once `n` is past the end. */
  function Drop(s: Bytes, n: nat): (r: Bytes)
    ensures |r| == if n <= |s| then |s| - n else 0
  {
    if n <= |s| then s[n..] else []
  }

  /** A slice `s[:n]`, which stops at the end of `s`. */
  function Take(s: Bytes, n: nat): (r: Bytes)
    ensures |r| == if n <= |s| then n else |s|
  {
    if n <= |s| then s[..n] else s
  }

  /** `int.from_bytes(s, "big")` */
  function BigEndian(s: Bytes): nat {
    if s == [] then 0 else BigEndian(s[..|s| - 1]) * 256 + s[|s| - 1]
  }

  lemma BigEndianSmall(s: Bytes)
    requires |s| <= 4
    ensures |s| == 0 ==> BigEndian(s) == 0
    ensures |s| == 1 ==> BigEndian(s) == s[0]
    ensures |s| == 2 ==> BigEndian(s) == (s[0] as int) * 0x100 + (s[1] as int)
    ensures |s| == 3 ==> BigEndian(s) == (s[0] as int) * 0x10000 + (s[1] as int) * 0x100 + (s[2] as int)
    ensures |s| == 4 ==>
              BigEndian(s) ==
              (s[0] as int) * 0x1000000 + (s[1] as int) * 0x10000 + (s[2] as int) * 0x100 + (s[3] as int)
  {
    if |s| == 2 {
      assert s[..1][..0] == [];
    } else if |s| == 3 {
      assert s[..2][..1] == s[..1] && s[..1][..0] == [];
    } else if |s| == 4 {
      assert s[..3][..2] == s[..2] && s[..2][..1] == s[..1] && s[..1][..0] == [];
    }
  }

  type Unsigned32 = x: int | 0 <= x < 0x1_0000_0000

  type Unsigned16 = x: int | 0 <= x < 0x1_0000

  /** `struct.pack(">H", v)` */
  function Pack16(v: Unsigned16): (r: Bytes)
    ensures |r| == 2 && BigEndian(r) == v
  {
    var r := [v / 0x100, v % 0x100];
    BigEndianSmall(r);
    r
  }

  /** `struct.pack(">I", v)` */
  function Pack32(v: Unsigned32): (r: Bytes)
    ensures |r| == 4 && BigEndian(r) == v
  {
    var low := v % 0x10000;
    var r := Pack16(v / 0x10000) + Pack16(low);
    BigEndianSmall(Pack16(v / 0x10000));
    BigEndianSmall(Pack16(low));
    BigEndianSmall(r);
    r
  }

  lemma DropDrop(s: Bytes, m: nat, n: nat)
    ensures Drop(Drop(s, m), n) == Drop(s, m + n)
  {
  }

  lemma DropHead(s: Bytes, n: nat)
    requires n < |s|
    ensures Drop(s, n)[0] == s[n]
  {
  }

  lemma Regroup3(a: Bytes, b: Bytes, c: Bytes)
    ensures a + b + c == a + (b + c)
  {
  }

  lemma Regroup4(a: Bytes, b: Bytes, c: Bytes, d: Bytes)
    ensures a + b + c + d == a + (b + (c + d))
  {
  }

  lemma DropPrefix(a: Bytes, b: Bytes)
    ensures Drop(a + b, |a|) == b
  {
  }
}
