/** Bytes, fixed-width unsigned integers and the result type every decoder returns. */
module Bytes {
  type byte = x: int | 0 <= x < 0x100
  type uint32 = x: int | 0 <= x < 0x1_0000_0000
  type int32 = x: int | -0x8000_0000 <= x < 0x8000_0000
  type uint64 = x: int | 0 <= x < 0x1_0000_0000_0000_0000
  type int64 = x: int | -0x8000_0000_0000_0000 <= x < 0x8000_0000_0000_0000

  const UINT64_MAX: uint64 := 0xFFFF_FFFF_FFFF_FFFF
  const TWO_64: int := 0x1_0000_0000_0000_0000

  type Hash256 = h: seq<byte> | |h| == 32 witness seq(32, _ => 0)
  type Hash160 = h: seq<byte> | |h| == 20 witness seq(20, _ => 0)

  // SHA-256, RIPEMD-160 and their compositions are parameters: total functions of fixed output size.
  type Hasher = seq<byte> -> Hash256
  type Hasher160 = seq<byte> -> Hash160

  datatype Option<+T> = None | Some(value: T)

  // Thrown BtkErrors become values; the text is the source's message.
  datatype Result<+T> = Ok(value: T) | Err(message: string) {
    predicate IsFailure() { Err? }

    function PropagateFailure<U>(): Result<U>
      requires Err?
    {
      Err(message)
    }

    function Extract(): T
      requires Ok?
    {
      value
    }
  }

  // A void call either returns or throws.
  datatype Check = Passed | Refused(message: string) {
    predicate IsFailure() { Refused? }

    function PropagateFailure<U>(): Result<U>
      requires Refused?
    {
      Err(message)
    }
  }

  /** The two's-complement casts static_cast<uint32_t>, static_cast<int32_t> and their 64-bit kin. */
  function AsUint32(v: int32): uint32 { if v < 0 then v + 0x1_0000_0000 else v }

  function AsInt32(v: uint32): int32 { if v < 0x8000_0000 then v else v - 0x1_0000_0000 }

  function AsUint64(v: int64): uint64 { if v < 0 then v + TWO_64 else v }

  function AsInt64(v: uint64): int64 { if v < 0x8000_0000_0000_0000 then v else v - TWO_64 }

  /** n little-endian bytes of v, higher bits dropped. */
  function Le(v: nat, n: nat): (s: seq<byte>)
    ensures |s| == n
  {
    if n == 0 then [] else [v % 0x100] + Le(v / 0x100, n - 1)
  }

  /** The number that little-endian bytes denote. */
  function FromLe(s: seq<byte>): nat {
    if s == [] then 0 else s[0] + 0x100 * FromLe(s[1..])
  }

  function Pow256(n: nat): (p: nat)
    ensures p > 0
  {
    if n == 0 then 1 else 0x100 * Pow256(n - 1)
  }

  lemma {:induction false} FromLeBound(s: seq<byte>)
    ensures FromLe(s) < Pow256(|s|)
  {
    if s != [] {
      FromLeBound(s[1..]);
    }
  }

  lemma {:induction false} FromLeOfLe(v: nat, n: nat)
    requires v < Pow256(n)
    ensures FromLe(Le(v, n)) == v
  {
    if n > 0 {
      FromLeOfLe(v / 0x100, n - 1);
      assert Le(v, n)[1..] == Le(v / 0x100, n - 1);
    }
  }

  lemma {:induction false} LeOfFromLe(s: seq<byte>)
    ensures Le(FromLe(s), |s|) == s
  {
    if s != [] {
      LeOfFromLe(s[1..]);
      assert s == [s[0]] + s[1..];
    }
  }

  lemma Pow256Values()
    ensures Pow256(2) == 0x1_0000 && Pow256(4) == 0x1_0000_0000 && Pow256(8) == TWO_64
  {
  }

  function Le32(v: uint32): (s: seq<byte>)
    ensures |s| == 4
  {
    Le(v, 4)
  }

  function Le64(v: uint64): (s: seq<byte>)
    ensures |s| == 8
  {
    Le(v, 8)
  }

  function ReadLe32(s: seq<byte>): uint32
    requires |s| == 4
  {
    FromLeBound(s); Pow256Values();
    FromLe(s)
  }

  function ReadLe64(s: seq<byte>): uint64
    requires |s| == 8
  {
    FromLeBound(s); Pow256Values();
    FromLe(s)
  }

  /** Fixed-width fields survive the round trip in both directions. */
  lemma FixedWidth32(v: uint32, s: seq<byte>)
    requires |s| == 4
    ensures ReadLe32(Le32(v)) == v
    ensures Le32(ReadLe32(s)) == s
  {
    Pow256Values();
    FromLeOfLe(v, 4);
    LeOfFromLe(s);
  }

  lemma FixedWidth64(v: uint64, s: seq<byte>)
    requires |s| == 8
    ensures ReadLe64(Le64(v)) == v
    ensures Le64(ReadLe64(s)) == s
  {
    Pow256Values();
    FromLeOfLe(v, 8);
    LeOfFromLe(s);
  }

  lemma CastsInverse(a: int32, b: uint32, c: int64, d: uint64)
    ensures AsInt32(AsUint32(a)) == a && AsUint32(AsInt32(b)) == b
    ensures AsInt64(AsUint64(c)) == c && AsUint64(AsInt64(d)) == d
  {
  }

  /** A run of n copies of x. */
  function Repeat<T>(x: T, n: nat): (s: seq<T>)
    ensures |s| == n
    ensures forall i :: 0 <= i < n ==> s[i] == x
  {
    seq(n, _ => x)
  }
}
