/** Regrouping a bit string from groups of one width to groups of another. */
module BitGroups {
  import opened Bytes
  import opened Radix

  function Two(k: nat): (p: nat)
    ensures p > 0
  {
    Pow(2, k)
  }

  lemma TwoAdd(a: nat, b: nat)
    ensures Two(a + b) == Two(a) * Two(b) == Two(b) * Two(a)
  {
    PowAdd(2, a, b);
  }

  lemma TwoSmall(k: nat)
    requires 1 <= k <= 8
    ensures 1 < Two(k) <= 256
  {
    PowMonoExp(2, 1, k);
    PowMonoExp(2, k, 8);
    assert Pow(2, 8) == 256 && Pow(2, 1) == 2;
  }

  ghost predicate Width(k: nat) { 1 <= k <= 8 }

  /** q spells the bits of p, highest first, followed by r zero bits. */
  ghost predicate Packs(p: seq<byte>, from: nat, q: seq<byte>, to: nat, r: nat) {
    && InBase(p, Two(from)) && InBase(q, Two(to))
    && |q| * to == |p| * from + r
    && Value(q, Two(to)) == Value(p, Two(from)) * Two(r)
  }

  // ----- The conversion loop -----

  /** The bits read are the groups written followed by the low bits of the accumulator. */
  ghost predicate Regrouped(read: seq<byte>, from: nat, out: seq<byte>, to: nat, acc: nat, bits: nat) {
    && InBase(read, Two(from)) && InBase(out, Two(to))
    && |read| * from == |out| * to + bits
    && Value(read, Two(from)) == Value(out, Two(to)) * Two(bits) + acc % Two(bits)
  }

  lemma ModOfMod(a: nat, m: nat, k: nat)
    requires m > 0 && k > 0
    ensures m * k > 0 && (a % (m * k)) % m == a % m
  {
    MulMono(1, m, 1, k);
    var q := a / (m * k);
    DivFacts(a, m * k);
    var b := a % (m * k);
    DivFacts(b, m);
    DivFacts(a, m);
    assert a == q * (m * k) + b == (q * k) * m + b;
    assert a == (q * k + b / m) * m + b % m by {
      assert (q * k) * m + (b / m) * m == (q * k + b / m) * m;
    }
    DivModUnique(a / m, a % m, q * k + b / m, b % m, m);
  }

  /** The low a+b bits are b bits above a bits. */
  lemma SplitLow(x: nat, a: nat, b: nat)
    ensures x / Two(a) >= 0
    ensures x % Two(a + b) == ((x / Two(a)) % Two(b)) * Two(a) + x % Two(a)
  {
    hide Two, Pow;
    TwoAdd(a, b);
    var m, k := Two(a), Two(b);
    var y := x / m;
    DivFacts(x, m);
    DivFacts(y, k);
    DivFacts(x, m * k);
    NextDigitBound(y % k, x % m, m, k);
    assert (y / k) * (m * k) + ((y % k) * m + x % m) == ((y / k) * k + y % k) * m + x % m by {
      assert (y / k) * (m * k) == ((y / k) * k) * m;
      assert ((y / k) * k) * m + (y % k) * m == ((y / k) * k + y % k) * m;
    }
    DivModUnique(x / (m * k), x % (m * k), y / k, (y % k) * m + x % m, m * k);
  }

  lemma LowAfterTake(acc: nat, v: nat, from: nat, to: nat, bits: nat)
    requires Width(from) && Width(to) && bits < to && v < Two(from)
    ensures acc * Two(from) + v >= 0
    ensures ((acc * Two(from) + v) % Two(from + to - 1)) % Two(bits + from) == (acc % Two(bits)) * Two(from) + v
  {
    hide Two, Pow;
    var p, x := Two(from), acc * Two(from) + v;
    MulMono(0, acc, 0, p);
    DivFacts(x, p);
    DivModUnique(x / p, x % p, acc, v, p);
    SplitLow(x, from, bits);
    TwoAdd(bits + from, to - 1 - bits);
    ModOfMod(x, Two(bits + from), Two(to - 1 - bits));
  }

  lemma TakeGroup(read: seq<byte>, from: nat, out: seq<byte>, to: nat, acc: nat, bits: nat, v: byte)
    requires Width(from) && Width(to) && bits < to && v < Two(from)
    requires Regrouped(read, from, out, to, acc, bits)
    ensures acc * Two(from) + v >= 0
    ensures Regrouped(read + [v], from, out, to, (acc * Two(from) + v) % Two(from + to - 1), bits + from)
  {
    hide Two, Pow, Value;
    var p := Two(from);
    LowAfterTake(acc, v, from, to, bits);
    ValueNext(read, v, p);
    TwoAdd(bits, from);
    Distribute(Value(out, Two(to)), Two(bits), acc % Two(bits), p);
    assert |read + [v]| * from == |read| * from + from;
  }

  lemma ValueNext(ds: seq<int>, d: int, base: nat)
    ensures Value(ds + [d], base) == Value(ds, base) * base + d
  {
    assert (ds + [d])[..|ds|] == ds;
  }

  lemma Distribute(o: int, b: int, low: int, p: int)
    ensures (o * b + low) * p == o * (b * p) + low * p
  {
  }

  lemma EmitValue(o: int, acc: nat, bits: nat, to: nat)
    requires Width(to) && to <= bits
    ensures var g := (acc / Two(bits - to)) % Two(to);
      && 0 <= g < Two(to) <= 256
      && o * Two(bits) + acc % Two(bits) == (o * Two(to) + g) * Two(bits - to) + acc % Two(bits - to)
  {
    TwoSmall(to);
    hide Two, Pow;
    SplitLow(acc, bits - to, to);
    TwoAdd(bits - to, to);
    Distribute(o, Two(to), (acc / Two(bits - to)) % Two(to), Two(bits - to));
  }

  lemma EmitGroup(read: seq<byte>, from: nat, out: seq<byte>, to: nat, acc: nat, bits: nat)
    requires Width(from) && Width(to) && to <= bits
    requires Regrouped(read, from, out, to, acc, bits)
    ensures var g := (acc / Two(bits - to)) % Two(to);
      0 <= g < 256 && Regrouped(read, from, out + [g], to, acc, bits - to)
  {
    hide Two, Pow, Value;
    EmitValue(Value(out, Two(to)), acc, bits, to);
    var g := (acc / Two(bits - to)) % Two(to);
    ValueNext(out, g, Two(to));
    OneMore(|out|, to);
  }

  lemma OneMore(n: nat, to: nat)
    ensures (n + 1) * to == n * to + to
  {
  }

  // ----- What the conversion computes -----

  function GroupsIn(len: nat, from: nat, to: nat): (n: nat)
    requires to > 0
    ensures n * to <= len * from < n * to + to
  {
    MulMono(0, len, 0, from);
    DivFacts(len * from, to);
    (len * from) / to
  }

  /** The whole groups of the number v without its r low bits. */
  function Whole(v: nat, r: nat, to: nat, n: nat): (ds: seq<byte>)
    requires Width(to)
    ensures |ds| == n && InBase(ds, Two(to))
  {
    TwoSmall(to);
    DivFacts(v, Two(r));
    Fixed(v / Two(r), Two(to), n)
  }

  function Padding(left: nat, r: nat, to: nat): (g: byte)
    requires r < to <= 8 && left < Two(r)
  {
    PadBound(left, r, to);
    left * Two(to - r)
  }

  lemma PadBound(left: nat, r: nat, to: nat)
    requires r < to <= 8 && left < Two(r)
    ensures 0 <= left * Two(to - r) < Two(to) <= 256
  {
    TwoSmall(to);
    hide Two, Pow;
    TwoAdd(r, to - r);
    MulMono(left + 1, Two(r), Two(to - r), Two(to - r));
    MulMono(0, left, 0, Two(to - r));
    assert (left + 1) * Two(to - r) == left * Two(to - r) + Two(to - r);
  }

  /** The input as one number, cut into groups of the new width from the top. */
  function Convert(p: seq<byte>, from: nat, to: nat, pad: bool): Option<seq<byte>>
    requires Width(from) && Width(to)
  {
    if !(forall i :: 0 <= i < |p| ==> p[i] < Two(from)) then None
    else
      ValueBound(p, Two(from));
      var v, n := Value(p, Two(from)), GroupsIn(|p|, from, to);
      var r := |p| * from - n * to;
      DivFacts(v, Two(r));
      var whole, left := Whole(v, r, to, n), v % Two(r);
      if pad then Some(if r == 0 then whole else whole + [Padding(left, r, to)])
      else if r >= from || left != 0 then None
      else Some(whole)
  }

  method ConvertBits(input: seq<byte>, from: nat, to: nat, pad: bool) returns (r: Option<seq<byte>>)
    requires Width(from) && Width(to)
    ensures r == Convert(input, from, to, pad)
  {
    hide Two, Pow, Value, Regrouped, Fixed, Whole, GroupsIn, Padding;
    var acc: nat, bits: nat, out: seq<byte> := 0, 0, [];
    NothingRead(from, to);
    assert input[..0] == [];
    for i := 0 to |input|
      invariant bits < to && Regrouped(input[..i], from, out, to, acc, bits)
      invariant forall j :: 0 <= j < i ==> input[j] < Two(from)
    {
      if input[i] >= Two(from) {
        return None;
      }
      TakeGroup(input[..i], from, out, to, acc, bits, input[i]);
      assert input[..i + 1] == input[..i] + [input[i]];
      acc := (acc * Two(from) + input[i]) % Two(from + to - 1);
      bits := bits + from;
      while bits >= to
        invariant Regrouped(input[..i + 1], from, out, to, acc, bits)
      {
        EmitGroup(input[..i + 1], from, out, to, acc, bits);
        bits := bits - to;
        out := out + [(acc / Two(bits)) % Two(to)];
      }
    }
    assert input[..|input|] == input;
    AllRead(input, from, out, to, acc, bits);
    ShiftMask(acc, bits, to);
    if pad {
      if bits != 0 {
        out := out + [(acc * Two(to - bits)) % Two(to)];
      }
    } else if bits >= from || (acc * Two(to - bits)) % Two(to) != 0 {
      return None;
    }
    return Some(out);
  }

  lemma NothingRead(from: nat, to: nat)
    ensures Regrouped([], from, [], to, 0, 0)
  {
    DivFacts(0, Two(0));
  }

  /** At the end of the input the groups written are the whole groups of its number. */
  lemma AllRead(read: seq<byte>, from: nat, out: seq<byte>, to: nat, acc: nat, bits: nat)
    requires Width(from) && Width(to) && bits < to
    requires Regrouped(read, from, out, to, acc, bits)
    ensures var v, n := Value(read, Two(from)), GroupsIn(|read|, from, to);
      && v >= 0 && n == |out| && |read| * from - n * to == bits
      && Whole(v, bits, to, n) == out && v % Two(bits) == acc % Two(bits)
  {
    hide Pow, Value, Fixed, Two, Whole;
    var v, o, m := Value(read, Two(from)), Value(out, Two(to)), Two(bits);
    ValueBound(read, Two(from));
    ValueBound(out, Two(to));
    var n := GroupsIn(|read|, from, to);
    DivModUnique(n, |read| * from - n * to, |out|, bits, to);
    DivFacts(v, m);
    DivFacts(acc, m);
    DivModUnique(v / m, v % m, o, acc % m, m);
    WholeIs(v, bits, to, out);
  }

  lemma WholeIs(v: nat, r: nat, to: nat, out: seq<byte>)
    requires Width(to) && InBase(out, Two(to)) && v / Two(r) == Value(out, Two(to))
    ensures Whole(v, r, to, |out|) == out
  {
    TwoSmall(to);
    hide Pow, Value, Fixed, Two;
    ValueBound(out, Two(to));
    FixedValue(v / Two(r), Two(to), |out|);
    ValueUnique(out, Fixed(v / Two(r), Two(to), |out|), Two(to));
  }

  /** Shifting the accumulator left and masking keeps exactly its low bits. */
  lemma ShiftMask(acc: nat, bits: nat, to: nat)
    requires bits < to <= 8
    ensures acc * Two(to - bits) >= 0
    ensures (acc * Two(to - bits)) % Two(to) == Padding(acc % Two(bits), bits, to)
    ensures (acc * Two(to - bits)) % Two(to) == 0 <==> acc % Two(bits) == 0
  {
    hide Pow, Two;
    var m, k := Two(bits), Two(to - bits);
    DivFacts(acc, m);
    PadBound(acc % m, bits, to);
    TwoAdd(bits, to - bits);
    MulMono(0, acc, 0, k);
    Distribute(acc / m, m, acc % m, k);
    DivFacts(acc * k, Two(to));
    DivModUnique((acc * k) / Two(to), (acc * k) % Two(to), acc / m, (acc % m) * k, Two(to));
    if acc % m > 0 {
      MulMono(1, acc % m, k, k);
    }
  }

  // ----- Regrouping there and back -----

  /** Fewer than a group of zeros leaves no choice: the packed groups are unique. */
  lemma PacksUnique(p: seq<byte>, from: nat, q: seq<byte>, q': seq<byte>, to: nat, r: nat, r': nat)
    requires Width(to) && r < to && r' < to && Packs(p, from, q, to, r) && Packs(p, from, q', to, r')
    ensures q == q'
  {
    hide Two, Pow, Value;
    ValueUnique(q, q', Two(to));
  }

  lemma TwoGroups(width: nat, n: nat)
    ensures Pow(Two(width), n) == Two(n * width)
  {
    PowPow(2, width, n);
    assert n * width == width * n;
  }

  lemma ValueBelow(p: seq<byte>, from: nat)
    requires InBase(p, Two(from))
    ensures 0 <= Value(p, Two(from)) < Two(|p| * from)
  {
    hide Two, Value, Pow;
    ValueBound(p, Two(from));
    TwoGroups(from, |p|);
  }

  /** The whole groups denote the number without its leftover bits. */
  lemma WholeValue(v: nat, r: nat, to: nat, n: nat, len: nat)
    requires Width(to) && len == n * to + r && v < Two(len)
    ensures v / Two(r) >= 0 && Value(Whole(v, r, to, n), Two(to)) == v / Two(r)
  {
    TwoSmall(to);
    hide Two, Value, Pow, Fixed;
    TwoGroups(to, n);
    TwoAdd(r, n * to);
    DivFacts(v, Two(r));
    QuotientFits(v, Two(r), Two(n * to));
    FixedValue(v / Two(r), Two(to), n);
  }

  lemma PaddedValue(v: nat, r: nat, to: nat)
    requires r <= to
    ensures (v / Two(r)) * Two(to) + (v % Two(r)) * Two(to - r) == v * Two(to - r)
  {
    hide Two, Pow;
    DivFacts(v, Two(r));
    TwoAdd(r, to - r);
    Distribute(v / Two(r), Two(r), v % Two(r), Two(to - r));
  }

  lemma PaddedPacks(p: seq<byte>, from: nat, to: nat) returns (r: nat)
    requires Width(from) && Width(to) && InBase(p, Two(from))
    ensures Convert(p, from, to, true).Some?
    ensures r < to && Packs(p, from, Convert(p, from, to, true).value, to, r)
  {
    TwoSmall(to);
    TwoZero();
    hide Two, Pow, Value, Fixed, Whole;
    ValueBelow(p, from);
    var v, n := Value(p, Two(from)), GroupsIn(|p|, from, to);
    var left := |p| * from - n * to;
    WholeValue(v, left, to, n, |p| * from);
    PaddedValue(v, left, to);
    r := if left == 0 then 0 else to - left;
    DivFacts(v, Two(left));
    if left > 0 {
      ValueNext(Whole(v, left, to, n), Padding(v % Two(left), left, to), Two(to));
      PadBound(v % Two(left), left, to);
      OneMore(n, to);
    } else {
      assert v / 1 == v;
    }
  }

  lemma TwoZero()
    ensures Two(0) == 1
  {
  }

  /** Converting with padding finds the one list of groups that spells the input plus fewer than a group of zeros. */
  lemma PaddedIsPacked(p: seq<byte>, from: nat, q: seq<byte>, to: nat)
    requires Width(from) && Width(to)
    ensures Convert(p, from, to, true) == Some(q) <==> exists r | 0 <= r < to :: Packs(p, from, q, to, r)
  {
    hide Packs, Two;
    if Convert(p, from, to, true) == Some(q) {
      var r := PaddedPacks(p, from, to);
    }
    if r :| 0 <= r < to && Packs(p, from, q, to, r) {
      PacksInBase(p, from, q, to, r);
      var r' := PaddedPacks(p, from, to);
      PacksUnique(p, from, q, Convert(p, from, to, true).value, to, r, r');
    }
  }

  lemma PacksInBase(p: seq<byte>, from: nat, q: seq<byte>, to: nat, r: nat)
    requires Packs(p, from, q, to, r)
    ensures InBase(p, Two(from)) && InBase(q, Two(to))
  {
  }

  /** Converting without padding accepts exactly whole bytes followed by zero bits too few for one more group. */
  lemma StrictIsPacked(q: seq<byte>, from: nat, p: seq<byte>, to: nat)
    requires Width(from) && Width(to)
    ensures Convert(q, from, to, false) == Some(p) <==>
      exists r | 0 <= r < from && r < to :: Packs(p, to, q, from, r)
  {
    if Convert(q, from, to, false) == Some(p) {
      StrictPacks(q, from, p, to);
    }
    if r :| 0 <= r < from && r < to && Packs(p, to, q, from, r) {
      PackedConverts(q, from, p, to, r);
    }
  }

  lemma StrictPacks(q: seq<byte>, from: nat, p: seq<byte>, to: nat)
    requires Width(from) && Width(to) && Convert(q, from, to, false) == Some(p)
    ensures exists r | 0 <= r < from && r < to :: Packs(p, to, q, from, r)
  {
    TwoSmall(to);
    hide Two, Pow, Value, Fixed, Whole;
    ValueBelow(q, from);
    var v, n := Value(q, Two(from)), GroupsIn(|q|, from, to);
    var r := |q| * from - n * to;
    WholeValue(v, r, to, n, |q| * from);
    DivFacts(v, Two(r));
    assert Packs(p, to, q, from, r);
  }

  lemma PackedConverts(q: seq<byte>, from: nat, p: seq<byte>, to: nat, r: nat)
    requires Width(from) && Width(to) && r < from && r < to && Packs(p, to, q, from, r)
    ensures Convert(q, from, to, false) == Some(p)
  {
    hide Two, Pow, Value, Fixed, Whole;
    var v, n := Value(q, Two(from)), GroupsIn(|q|, from, to);
    ValueBelow(q, from);
    ValueBelow(p, to);
    DivModUnique(n, |q| * from - n * to, |p|, r, to);
    DivFacts(v, Two(r));
    DivModUnique(v / Two(r), v % Two(r), Value(p, Two(to)), 0, Two(r));
    WholeIs(v, r, to, p);
  }

  /** With wider groups on the p side, padding and the strict inverse undo each other exactly. */
  lemma RoundTrip(p: seq<byte>, q: seq<byte>, wide: nat, narrow: nat)
    requires Width(wide) && Width(narrow) && narrow <= wide
    ensures Convert(p, wide, narrow, true) == Some(q) <==> Convert(q, narrow, wide, false) == Some(p)
  {
    hide Convert, Packs;
    PaddedIsPacked(p, wide, q, narrow);
    StrictIsPacked(q, narrow, p, wide);
  }
}
