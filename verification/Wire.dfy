/** Readers of a byte string's front and the writers they invert; CompactSize counts. */
module Wire {
  import opened Bytes

  // A reader takes a value off the front of its input and leaves the rest.
  datatype Parsed<+T> = Got(value: T, rest: seq<byte>) | Fail(message: string) {
    predicate IsFailure() { Fail? }

    function PropagateFailure<U>(): Parsed<U>
      requires Fail?
    {
      Fail(message)
    }

    function Extract(): (T, seq<byte>)
      requires Got?
    {
      (value, rest)
    }
  }

  type Reader<+T> = seq<byte> -> Parsed<T>
  type Writer<-T> = T -> seq<byte>

  const BAD_COUNT := "invalid compact size"
  const BAD_TX := "invalid transaction"

  // ----- CompactSize -----

  /** The shortest form of a 64-bit count; higher bits are dropped. */
  function WriteCompact(n: nat): (s: seq<byte>)
    ensures 1 <= |s| <= 9
  {
    if n < 0xfd then [n]
    else if n <= 0xffff then [0xfd] + Le(n, 2)
    else if n <= 0xffff_ffff then [0xfe] + Le(n, 4)
    else [0xff] + Le(n, 8)
  }

  /** A k-byte count that must exceed what a shorter form could say. */
  function ReadLong(d: seq<byte>, k: nat, below: nat): Parsed<nat> {
    if |d| < k then Fail(BAD_COUNT)
    else if FromLe(d[..k]) <= below then Fail(BAD_COUNT)
    else Got(FromLe(d[..k]), d[k..])
  }

  function ReadCompact(d: seq<byte>): Parsed<nat> {
    if d == [] then Fail(BAD_COUNT)
    else if d[0] < 0xfd then Got(d[0], d[1..])
    else if d[0] == 0xfd then ReadLong(d[1..], 2, 0xfc)
    else if d[0] == 0xfe then ReadLong(d[1..], 4, 0xffff)
    else ReadLong(d[1..], 8, 0xffff_ffff)
  }

  lemma ReadLongInverts(n: nat, k: nat, below: nat, rest: seq<byte>)
    requires below < n < Pow256(k)
    ensures ReadLong(Le(n, k) + rest, k, below) == Got(n, rest)
  {
    FromLeOfLe(n, k);
    assert (Le(n, k) + rest)[..k] == Le(n, k);
  }

  /** Every count survives, and the reader stops exactly where the writer did. */
  lemma CompactInverts(n: nat, rest: seq<byte>)
    requires n < TWO_64
    ensures ReadCompact(WriteCompact(n) + rest) == Got(n, rest)
  {
    hide Le, FromLe;
    Pow256Values();
    var s := WriteCompact(n) + rest;
    if n < 0xfd {
    } else if n <= 0xffff {
      assert s[1..] == Le(n, 2) + rest;
      ReadLongInverts(n, 2, 0xfc, rest);
    } else if n <= 0xffff_ffff {
      assert s[1..] == Le(n, 4) + rest;
      ReadLongInverts(n, 4, 0xffff, rest);
    } else {
      assert s[1..] == Le(n, 8) + rest;
      ReadLongInverts(n, 8, 0xffff_ffff, rest);
    }
  }

  lemma ReadLongCanonical(d: seq<byte>, k: nat, below: nat)
    requires ReadLong(d, k, below).Got?
    ensures var p := ReadLong(d, k, below); below < p.value < Pow256(k) && d == Le(p.value, k) + p.rest
  {
    LeOfFromLe(d[..k]);
    FromLeBound(d[..k]);
  }

  /** Only the shortest form is accepted, so a count has one spelling. */
  lemma CompactCanonical(d: seq<byte>)
    requires ReadCompact(d).Got?
    ensures var p := ReadCompact(d); p.value < TWO_64 && d == WriteCompact(p.value) + p.rest
  {
    hide Le, FromLe, ReadLong;
    Pow256Values();
    if d[0] < 0xfd {
    } else if d[0] == 0xfd {
      ReadLongCanonical(d[1..], 2, 0xfc);
    } else if d[0] == 0xfe {
      ReadLongCanonical(d[1..], 4, 0xffff);
    } else {
      ReadLongCanonical(d[1..], 8, 0xffff_ffff);
    }
    assert d == [d[0]] + d[1..];
  }

  // ----- Fields and lists -----

  function ReadBytes(n: nat, d: seq<byte>): (p: Parsed<seq<byte>>)
    ensures p.Got? ==> |p.value| == n && d == p.value + p.rest
  {
    if |d| < n then Fail(BAD_TX) else Got(d[..n], d[n..])
  }

  /** A length, then that many bytes. */
  function ReadBlob(d: seq<byte>): Parsed<seq<byte>> {
    var (n, rest) :- ReadCompact(d);
    ReadBytes(n, rest)
  }

  function WriteBlob(b: seq<byte>): seq<byte> { WriteCompact(|b|) + b }

  function ReadMany<T>(read: Reader<T>, n: nat, d: seq<byte>): Parsed<seq<T>> {
    if n == 0 then Got([], d)
    else
      var (x, rest) :- read(d);
      var (xs, rest') :- ReadMany(read, n - 1, rest);
      Got([x] + xs, rest')
  }

  function WriteMany<T>(write: Writer<T>, xs: seq<T>): seq<byte> {
    if xs == [] then [] else write(xs[0]) + WriteMany(write, xs[1..])
  }

  /** A count no larger than the bytes left, then that many items. */
  function ReadCounted<T>(read: Reader<T>, d: seq<byte>): Parsed<seq<T>> {
    var (n, rest) :- ReadCompact(d);
    if n > |rest| then Fail(BAD_TX) else ReadMany(read, n, rest)
  }

  function WriteCounted<T>(write: Writer<T>, xs: seq<T>): seq<byte> {
    WriteCompact(|xs|) + WriteMany(write, xs)
  }

  /** Reading what was written for x, followed by anything, gives x and the rest. */
  ghost predicate Reads<T>(read: Reader<T>, write: Writer<T>, x: T) {
    |write(x)| > 0 && forall rest :: read(write(x) + rest) == Got(x, rest)
  }

  /** Whatever is read was written: the input is the value's own spelling and the rest. */
  ghost predicate Canonical<T>(read: Reader<T>, write: Writer<T>) {
    forall d :: read(d).Got? ==> d == write(read(d).value) + read(d).rest
  }

  lemma {:induction false} ManyInverts<T>(read: Reader<T>, write: Writer<T>, xs: seq<T>, rest: seq<byte>)
    requires forall x :: x in xs ==> Reads(read, write, x)
    ensures |WriteMany(write, xs)| >= |xs|
    ensures ReadMany(read, |xs|, WriteMany(write, xs) + rest) == Got(xs, rest)
  {
    if xs == [] {
      assert WriteMany(write, xs) + rest == rest;
    } else {
      ManyInverts(read, write, xs[1..], rest);
      assert Reads(read, write, xs[0]);
      assert WriteMany(write, xs) + rest == write(xs[0]) + (WriteMany(write, xs[1..]) + rest);
      assert xs == [xs[0]] + xs[1..];
    }
  }

  lemma CountedInverts<T>(read: Reader<T>, write: Writer<T>, xs: seq<T>, rest: seq<byte>)
    requires |xs| < TWO_64 && forall x :: x in xs ==> Reads(read, write, x)
    ensures ReadCounted(read, WriteCounted(write, xs) + rest) == Got(xs, rest)
  {
    hide ReadCompact, WriteCompact, ReadMany, WriteMany;
    var body := WriteMany(write, xs) + rest;
    CompactInverts(|xs|, body);
    ManyInverts(read, write, xs, rest);
    assert WriteCounted(write, xs) + rest == WriteCompact(|xs|) + body;
  }

  lemma {:induction false} ManyCanonical<T>(read: Reader<T>, write: Writer<T>, n: nat, d: seq<byte>)
    requires Canonical(read, write) && ReadMany(read, n, d).Got?
    ensures var p := ReadMany(read, n, d); |p.value| == n && d == WriteMany(write, p.value) + p.rest
  {
    if n > 0 {
      var x, rest := read(d).value, read(d).rest;
      ManyCanonical(read, write, n - 1, rest);
      var p := ReadMany(read, n, d);
      assert p.value[1..] == ReadMany(read, n - 1, rest).value;
      assert d == write(x) + (WriteMany(write, p.value[1..]) + p.rest);
    }
  }

  lemma CountedCanonical<T>(read: Reader<T>, write: Writer<T>)
    requires Canonical(read, write)
    ensures forall d :: ReadCounted(read, d).Got? ==>
      var p := ReadCounted(read, d); |p.value| < TWO_64 && d == WriteCounted(write, p.value) + p.rest
  {
    hide ReadCompact, WriteCompact, ReadMany, WriteMany;
    forall d | ReadCounted(read, d).Got?
      ensures var p := ReadCounted(read, d); |p.value| < TWO_64 && d == WriteCounted(write, p.value) + p.rest
    {
      CompactCanonical(d);
      ManyCanonical(read, write, ReadCompact(d).value, ReadCompact(d).rest);
      var p := ReadCounted(read, d);
      assert d == WriteCompact(|p.value|) + (WriteMany(write, p.value) + p.rest);
    }
  }

  lemma BlobReads(b: seq<byte>)
    requires |b| < TWO_64
    ensures Reads(ReadBlob, WriteBlob, b)
  {
    forall rest ensures ReadBlob(WriteBlob(b) + rest) == Got(b, rest) {
      CompactInverts(|b|, b + rest);
      assert WriteBlob(b) + rest == WriteCompact(|b|) + (b + rest);
    }
  }

  lemma BlobCanonical()
    ensures Canonical(ReadBlob, WriteBlob)
    ensures forall d :: ReadBlob(d).Got? ==> |ReadBlob(d).value| < TWO_64
  {
    hide ReadCompact, WriteCompact;
    forall d | ReadBlob(d).Got?
      ensures d == WriteBlob(ReadBlob(d).value) + ReadBlob(d).rest && |ReadBlob(d).value| < TWO_64
    {
      CompactCanonical(d);
    }
  }

  /** What holds of every value a reader returns holds of every member of the lists it reads. */
  lemma {:induction false} ManyAll<T>(read: Reader<T>, holds: T -> bool, n: nat, d: seq<byte>)
    requires forall d' :: read(d').Got? ==> holds(read(d').value)
    requires ReadMany(read, n, d).Got?
    ensures |ReadMany(read, n, d).value| == n
    ensures forall x :: x in ReadMany(read, n, d).value ==> holds(x)
  {
    if n > 0 {
      ManyAll(read, holds, n - 1, read(d).rest);
    }
  }

  lemma CountedAll<T>(read: Reader<T>, holds: T -> bool, d: seq<byte>)
    requires forall d' :: read(d').Got? ==> holds(read(d').value)
    requires ReadCounted(read, d).Got?
    ensures forall x :: x in ReadCounted(read, d).value ==> holds(x)
    ensures |ReadCounted(read, d).value| == ReadCompact(d).value < TWO_64
  {
    hide ReadCompact, ReadMany;
    CompactCanonical(d);
    ManyAll(read, holds, ReadCompact(d).value, ReadCompact(d).rest);
  }
}
