/** Base58: in-place radix conversion between byte strings and alphabet strings. */
module Base58 {
  import opened Bytes
  import opened Radix

  // The 58 characters in order, split where a run of consecutive characters ends.
  const ALPHABET: string :=
    "123456789" + "ABCDEFGH" + "JKLMN" + "PQRSTUVWXYZ" + "abcdefghijk" + "mnopqrstuvwxyz"

  function AlphabetValue(c: char): int {
    if '1' <= c <= '9' then c as int - '1' as int
    else if 'A' <= c <= 'H' then c as int - 'A' as int + 9
    else if 'J' <= c <= 'N' then c as int - 'J' as int + 17
    else if 'P' <= c <= 'Z' then c as int - 'P' as int + 22
    else if 'a' <= c <= 'k' then c as int - 'a' as int + 33
    else if 'm' <= c <= 'z' then c as int - 'm' as int + 44
    else -1
  }

  function Run(first: char, n: nat): string
    requires first as int + n < 0x80
  {
    seq(n, i requires 0 <= i < n => (first as int + i) as char)
  }

  lemma AlphabetRuns()
    ensures ALPHABET == Run('1', 9) + Run('A', 8) + Run('J', 5) + Run('P', 11) + Run('a', 11) + Run('m', 14)
  {
    assert "123456789" == Run('1', 9) && "ABCDEFGH" == Run('A', 8) && "JKLMN" == Run('J', 5);
    assert "PQRSTUVWXYZ" == Run('P', 11) && "abcdefghijk" == Run('a', 11) && "mnopqrstuvwxyz" == Run('m', 14);
  }

  /** The range table and the 58-letter string invert each other. */
  lemma AlphabetInverse(v: int, c: char)
    ensures |ALPHABET| == 58
    ensures 0 <= v < 58 ==> AlphabetValue(ALPHABET[v]) == v
    ensures AlphabetValue(c) >= 0 ==> AlphabetValue(c) < 58 && ALPHABET[AlphabetValue(c)] == c
  {
    hide ALPHABET;
    AlphabetRuns();
  }

  predicate IsAlphanumeric(c: char) { '0' <= c <= '9' || 'A' <= c <= 'Z' || 'a' <= c <= 'z' }

  /** The letters are the alphanumerics without 0, I, O and l, numbered 0 to 57 in their ASCII order. */
  lemma AlphabetOrder(c: char, d: char)
    ensures 0 <= AlphabetValue(c) < 58 <==> IsAlphanumeric(c) && c != '0' && c != 'I' && c != 'O' && c != 'l'
    ensures AlphabetValue(c) >= 0 && AlphabetValue(d) >= 0 ==> (AlphabetValue(c) < AlphabetValue(d) <==> c < d)
    ensures AlphabetValue('1') == 0 && AlphabetValue('z') == 57
  {
  }

  // ----- What the two conversions compute -----

  function LeadingCount<T(==)>(s: seq<T>, x: T): (n: nat)
    ensures n <= |s|
    ensures forall i :: 0 <= i < n ==> s[i] == x
    ensures n < |s| ==> s[n] != x
  {
    if s == [] || s[0] != x then 0 else 1 + LeadingCount(s[1..], x)
  }

  function ToText(ds: seq<int>): (s: string)
    requires InBase(ds, 58)
    ensures |s| == |ds|
  {
    seq(|ds|, i requires 0 <= i < |ds| => ALPHABET[ds[i]])
  }

  predicate IsAlphabetText(s: string) {
    forall i :: 0 <= i < |s| ==> AlphabetValue(s[i]) >= 0
  }

  function FromText(s: string): (ds: seq<int>)
    requires IsAlphabetText(s)
    ensures |ds| == |s| && InBase(ds, 58)
    ensures forall i :: 0 <= i < |s| ==> ds[i] == AlphabetValue(s[i])
  {
    seq(|s|, i requires 0 <= i < |s| => AlphabetValue(s[i]))
  }

  /** Leading zero bytes become '1's; the rest is the canonical base-58 numeral of the number. */
  function Encode(data: seq<byte>): string {
    ValueBound(data, 256);
    Repeat('1', LeadingCount(data, 0)) + ToText(Digits(Value(data, 256), 58))
  }

  function Decode(text: string): Result<seq<byte>> {
    if IsAlphabetText(text) then
      ValueBound(FromText(text), 58);
      Ok(Repeat(0, LeadingCount(text, '1')) + Digits(Value(FromText(text), 58), 256))
    else Err("invalid base58")
  }

  // ----- The in-place conversion -----

  /** The number v becomes mul * v + digit. */
  ghost predicate Advanced(now: seq<int>, was: seq<int>, mul: nat, base: nat, digit: nat) {
    Value(now, base) == mul * Value(was, base) + digit
  }

  ghost predicate Fits(was: seq<int>, mul: nat, base: nat, digit: nat) {
    mul * Value(was, base) + digit < Pow(base, |was|)
  }

  ghost predicate ZeroUpTo(s: seq<int>, n: int) {
    forall i :: 0 <= i < n && i < |s| ==> s[i] == 0
  }

  /** Replaces the number v in buf by mul * v + digit, touching only the low-order digits in use. */
  method MultiplyAdd(buf: array<byte>, length: nat, mul: nat, base: nat, digit: nat) returns (length': nat)
    requires 1 < base <= 0x100 && length <= buf.Length
    requires InBase(buf[..], base) && ZeroUpTo(buf[..], buf.Length - length)
    requires Fits(buf[..], mul, base, digit)
    modifies buf
    ensures InBase(buf[..], base) && Advanced(buf[..], old(buf[..]), mul, base, digit)
    ensures length' <= buf.Length && ZeroUpTo(buf[..], buf.Length - length')
  {
    hide Balanced, Advanced, Fits;
    var carry: nat, j: nat, k: nat := digit, 0, buf.Length;
    ghost var was := buf[..];
    BalancedStart(mul, base, digit);
    assert buf[k..] == was[k..] == [];
    while k > 0 && (carry != 0 || j < length)
      invariant 0 <= k <= buf.Length && j == buf.Length - k
      invariant buf[..k] == was[..k] && InBase(buf[..], base)
      invariant Balanced(buf[k..], was[k..], mul, base, carry, digit)
      decreases k
    {
      k := k - 1;
      ghost var tail, b := buf[k + 1..], buf[k];
      BalancedStep(tail, was[k + 1..], mul, base, b, carry, digit);
      carry := carry + mul * buf[k];
      buf[k] := carry % base;
      carry := carry / base;
      assert buf[k..] == [buf[k]] + tail && was[k..] == [b] + was[k + 1..];
      j := j + 1;
    }
    FinalCarry(buf[..], was, k, mul, base, carry, digit);
    length' := j;
  }

  /** When the loop stops, no carry is lost and untouched digits are zero. */
  lemma FinalCarry(now: seq<int>, was: seq<int>, k: nat, mul: nat, base: nat, carry: nat, digit: nat)
    requires |now| == |was| && k <= |now| && InBase(now, base) && base > 1
    requires now[..k] == was[..k] && (k > 0 ==> carry == 0 && ZeroUpTo(was, k))
    requires Balanced(now[k..], was[k..], mul, base, carry, digit) && Fits(was, mul, base, digit)
    ensures Advanced(now, was, mul, base, digit)
  {
    hide Pow, Value;
    if k > 0 {
      ValueSkipZeros(was, k, base);
      ValueSkipZeros(now, k, base);
    } else {
      assert now[0..] == now && was[0..] == was;
      ValueBound(now, base);
      if carry > 0 {
        MulMono(1, carry, Pow(base, |now|), Pow(base, |now|));
      }
    }
  }

  // ----- Buffer sizes -----

  /** 256^8 <= 58^11 makes 138/100 digits per byte, plus two, always enough. */
  lemma EncodeBufferSuffices(n: nat)
    ensures Pow(256, n) <= Pow(58, n * 138 / 100 + 2)
  {
    assert Pow(256, 8) == 18446744073709551616 && Pow(58, 11) == 24986644000165537792;
    hide Pow;
    PowCompare(256, 8, 58, 11, n, n * 138 / 100 + 2);
  }

  lemma SlopePowers()
    ensures Pow(58, 1) == 58 && Pow(58, 10) == 430804206899405824
    ensures Pow(256, 13) == 20282409603651670423947251286016
  {
  }

  lemma SlopeNumbers()
    ensures 58 * Pow(430804206899405824, 7) <= Pow(20282409603651670423947251286016, 4)
  {
  }

  lemma SlopeFact()
    ensures Pow(58, 71) <= Pow(256, 52)
  {
    hide Pow;
    SlopePowers();
    PowPow(58, 10, 7);
    PowAdd(58, 1, 70);
    PowPow(256, 13, 4);
    SlopeNumbers();
  }

  /** 58^71 <= 256^52 makes 733/1000 bytes per character, plus two, always enough. */
  lemma DecodeBufferSuffices(n: nat)
    ensures Pow(58, n) <= Pow(256, n * 733 / 1000 + 2)
  {
    SlopeFact();
    hide Pow;
    PowCompare(58, 71, 256, 52, n, n * 733 / 1000 + 2);
  }

  /** A prefix of the input still fits, so the next digit cannot overflow the buffer. */
  lemma PrefixFits(ds: seq<int>, i: nat, was: seq<int>, mul: nat, base: nat)
    requires 1 < mul && 1 < base && i < |ds| && InBase(ds, mul)
    requires Value(was, base) == Value(ds[..i], mul)
    requires Pow(mul, |ds|) <= Pow(base, |was|)
    ensures Fits(was, mul, base, ds[i])
    ensures forall now :: Advanced(now, was, mul, base, ds[i]) ==> Value(now, base) == Value(ds[..i + 1], mul)
  {
    var next := ds[..i + 1];
    assert next[..i] == ds[..i];
    assert Value(next, mul) == mul * Value(was, base) + ds[i];
    hide Pow, Value;
    ValueBound(next, mul);
    PowMonoExp(mul, i + 1, |ds|);
  }

  /** Skipping the buffer's leading zeros leaves the canonical digits of its number. */
  method TrimmedDigits(buf: array<byte>, length: nat, base: nat) returns (ds: seq<byte>)
    requires 1 < base <= 0x100 && length <= buf.Length
    requires InBase(buf[..], base) && ZeroUpTo(buf[..], buf.Length - length)
    ensures Value(buf[..], base) >= 0 && ds == Digits(Value(buf[..], base), base)
  {
    hide Pow, Value, Digits;
    var it := buf.Length - length;
    while it != buf.Length && buf[it] == 0
      invariant 0 <= it <= buf.Length && ZeroUpTo(buf[..], it)
    {
      it := it + 1;
    }
    ds := buf[it..];
    ValueSkipZeros(buf[..], it, base);
    assert buf[..][it..] == ds;
    DigitsOfValue(ds, base);
  }

  method Base58Encode(data: seq<byte>) returns (out: string)
    ensures out == Encode(data)
  {
    hide Pow, Value, Digits;
    var zeros: nat := 0;
    while zeros < |data| && data[zeros] == 0
      invariant 0 <= zeros <= |data| && ZeroUpTo(data, zeros)
    {
      zeros := zeros + 1;
    }
    LeadingCountIs(data, 0, zeros);
    ghost var rest := data[zeros..];
    var b58 := new byte[(|data| - zeros) * 138 / 100 + 2](_ => 0);
    EncodeBufferSuffices(|rest|);
    AllZeros(b58[..], 58);
    AllZeros(rest[..0], 256);
    var length: nat := 0;
    for i := zeros to |data|
      invariant length <= b58.Length && InBase(b58[..], 58) && ZeroUpTo(b58[..], b58.Length - length)
      invariant Value(b58[..], 58) == Value(rest[..i - zeros], 256)
    {
      assert rest[i - zeros] == data[i];
      PrefixFits(rest, i - zeros, b58[..], 256, 58);
      length := MultiplyAdd(b58, length, 256, 58, data[i]);
    }
    assert rest[..|data| - zeros] == rest;
    ValueSkipZeros(data, zeros, 256);
    var ds := TrimmedDigits(b58, length, 58);
    out := Spell(zeros, ds);
  }

  /** The output string: one '1' per leading zero byte, then the digits' letters. */
  method Spell(zeros: nat, ds: seq<byte>) returns (out: string)
    requires InBase(ds, 58)
    ensures out == Repeat('1', zeros) + ToText(ds)
  {
    out := seq(zeros, _ => '1');
    AlphabetInverse(0, '1');
    for i := 0 to |ds|
      invariant out == Repeat('1', zeros) + ToText(ds[..i])
    {
      assert ToText(ds[..i + 1]) == ToText(ds[..i]) + [ALPHABET[ds[i]]];
      out := out + [ALPHABET[ds[i]]];
    }
    assert ds[..|ds|] == ds;
  }

  lemma {:induction false} LeadingCountIs<T>(s: seq<T>, x: T, n: nat)
    requires n <= |s| && (forall i :: 0 <= i < n ==> s[i] == x) && (n < |s| ==> s[n] != x)
    ensures LeadingCount(s, x) == n
  {
    if n > 0 {
      LeadingCountIs(s[1..], x, n - 1);
    }
  }

  lemma TextPrefixFits(text: string, zeros: nat, i: nat, was: seq<int>)
    requires zeros <= i < |text| && forall j :: 0 <= j <= i ==> AlphabetValue(text[j]) >= 0
    requires |was| == (|text| - zeros) * 733 / 1000 + 2
    requires Value(was, 256) == Value(FromText(text[zeros..i]), 58)
    ensures Fits(was, 58, 256, AlphabetValue(text[i]))
    ensures forall now ::
      Advanced(now, was, 58, 256, AlphabetValue(text[i])) ==> Value(now, 256) == Value(FromText(text[zeros..i + 1]), 58)
  {
    hide Pow, Value, AlphabetValue, Fits, Advanced;
    var ds := FromText(text[zeros..i + 1]);
    assert ds[..i - zeros] == FromText(text[zeros..i]) && ds[..i + 1 - zeros] == ds;
    DecodeBufferSuffices(|text| - zeros);
    PowMonoExp(58, |ds|, |text| - zeros);
    PrefixFits(ds, i - zeros, was, 58, 256);
  }

  method Base58Decode(encoded: string) returns (r: Result<seq<byte>>)
    ensures r == Decode(encoded)
  {
    hide Pow, Value, Digits, AlphabetValue;
    AlphabetOrder('1', 'z');
    var zeros: nat := 0;
    while zeros < |encoded| && encoded[zeros] == '1'
      invariant 0 <= zeros <= |encoded| && forall i :: 0 <= i < zeros ==> encoded[i] == '1'
    {
      zeros := zeros + 1;
    }
    LeadingCountIs(encoded, '1', zeros);
    var b256 := new byte[(|encoded| - zeros) * 733 / 1000 + 2](_ => 0);
    AllZeros(b256[..], 256);
    AllZeros(FromText(encoded[zeros..zeros]), 58);
    var length: nat := 0;
    for i := zeros to |encoded|
      invariant length <= b256.Length && InBase(b256[..], 256) && ZeroUpTo(b256[..], b256.Length - length)
      invariant forall j :: 0 <= j < i ==> AlphabetValue(encoded[j]) >= 0
      invariant Value(b256[..], 256) == Value(FromText(encoded[zeros..i]), 58)
    {
      var v := AlphabetValue(encoded[i]);
      if v < 0 {
        return Err("invalid base58");
      }
      TextPrefixFits(encoded, zeros, i, b256[..]);
      length := MultiplyAdd(b256, length, 58, 256, v);
    }
    assert encoded[..|encoded|] == encoded;
    ValueSkipZeros(FromText(encoded), zeros, 58);
    assert FromText(encoded)[zeros..] == FromText(encoded[zeros..|encoded|]);
    var ds := TrimmedDigits(b256, length, 256);
    return Ok(seq(zeros, _ => 0) + ds);
  }

  // ----- The codec is a bijection between byte strings and alphabet strings -----

  lemma TextInverse(ds: seq<int>, text: string)
    ensures InBase(ds, 58) ==> IsAlphabetText(ToText(ds)) && FromText(ToText(ds)) == ds
    ensures IsAlphabetText(text) ==> ToText(FromText(text)) == text
  {
    forall i | 0 <= i < |ds| ensures 0 <= ds[i] < 58 ==> AlphabetValue(ALPHABET[ds[i]]) == ds[i] {
      AlphabetInverse(ds[i], '1');
    }
    forall i | 0 <= i < |text| && AlphabetValue(text[i]) >= 0 ensures ALPHABET[AlphabetValue(text[i])] == text[i] {
      AlphabetInverse(0, text[i]);
    }
  }

  /** A digit string splits into its leading zeros and the canonical digits of its number. */
  lemma Split(ds: seq<int>, base: nat)
    requires base > 1 && InBase(ds, base)
    ensures Value(ds, base) >= 0
    ensures ds == Repeat(0, LeadingCount(ds, 0)) + Digits(Value(ds, base), base)
  {
    hide Pow, Value, Digits, LeadingCount, Repeat;
    var n := LeadingCount(ds, 0);
    ValueSkipZeros(ds, n, base);
    DigitsOfValue(ds[n..], base);
    assert ds == Repeat(0, n) + ds[n..];
  }

  /** Zeros in front of canonical digits can be counted back and do not change the number. */
  lemma Unsplit(n: nat, v: nat, base: nat)
    requires base > 1
    ensures LeadingCount(Repeat(0, n) + Digits(v, base), 0) == n
    ensures Value(Repeat(0, n) + Digits(v, base), base) == v
  {
    hide Pow, Value, Digits;
    var ds := Repeat(0, n) + Digits(v, base);
    LeadingCountIs(ds, 0, n);
    ValueSkipZeros(ds, n, base);
    assert ds[n..] == Digits(v, base);
    DigitsValue(v, base);
  }

  /** '1' is the letter for zero, so counting leading '1's counts leading zero digits. */
  lemma LeadingOnes(text: string)
    requires IsAlphabetText(text)
    ensures LeadingCount(FromText(text), 0) == LeadingCount(text, '1')
  {
    var n := LeadingCount(text, '1');
    AlphabetInverse(0, '1');
    if n < |text| {
      AlphabetInverse(0, text[n]);
    }
    LeadingCountIs(FromText(text), 0, n);
  }

  lemma EncodeDigits(data: seq<byte>)
    ensures Value(data, 256) >= 0
    ensures IsAlphabetText(Encode(data))
    ensures FromText(Encode(data)) == Repeat(0, LeadingCount(data, 0)) + Digits(Value(data, 256), 58)
  {
    hide Pow, Value, Digits;
    ValueBound(data, 256);
    var ds := Repeat(0, LeadingCount(data, 0)) + Digits(Value(data, 256), 58);
    AlphabetInverse(0, '1');
    assert Encode(data) == ToText(ds);
    TextInverse(ds, "");
  }

  /** decode(encode(d)) = d for every byte string, leading zeros included. */
  lemma DecodeEncode(data: seq<byte>)
    ensures Decode(Encode(data)) == Ok(data)
  {
    hide Pow, Value, Digits, Encode;
    EncodeDigits(data);
    LeadingOnes(Encode(data));
    Unsplit(LeadingCount(data, 0), Value(data, 256), 58);
    Split(data, 256);
  }

  /** encode(decode(s)) = s for every string over the alphabet, leading '1's included. */
  lemma EncodeDecode(text: string)
    requires Decode(text).Ok?
    ensures Encode(Decode(text).value) == text
  {
    hide Pow, Value, Digits, Encode;
    var ds := FromText(text);
    Split(ds, 58);
    LeadingOnes(text);
    var data := Decode(text).value;
    Unsplit(LeadingCount(ds, 0), Value(ds, 58), 256);
    EncodeDigits(data);
    TextInverse(FromText(Encode(data)), text);
    TextInverse(FromText(text), Encode(data));
  }

  lemma EmptyText()
    ensures Encode([]) == ""
  {
  }

  // ----- Checksummed payloads -----

  /** Four bytes of the double SHA-256 follow the payload. */
  function CheckEncode(hash256: Hasher, payload: seq<byte>): string {
    Encode(payload + hash256(payload)[..4])
  }

  function CheckDecode(hash256: Hasher, text: string): Result<seq<byte>> {
    match Decode(text)
    case Err(m) => Err(m)
    case Ok(raw) =>
      if |raw| < 4 then Err("invalid WIF checksum")
      else if hash256(raw[..|raw| - 4])[..4] != raw[|raw| - 4..] then Err("invalid WIF checksum")
      else Ok(raw[..|raw| - 4])
  }

  /** A payload has exactly one checksummed text: decoding accepts the encoding and nothing else. */
  lemma CheckCanonical(hash256: Hasher, payload: seq<byte>, text: string)
    ensures CheckDecode(hash256, text) == Ok(payload) <==> text == CheckEncode(hash256, payload)
  {
    hide Encode, Decode;
    var raw := payload + hash256(payload)[..4];
    DecodeEncode(raw);
    assert raw[..|raw| - 4] == payload;
    if CheckDecode(hash256, text) == Ok(payload) {
      EncodeDecode(text);
      assert Decode(text).value == raw;
    }
  }
  /** The bytes behind a checksummed text are the payload and the first four bytes of its hash. */
  lemma CheckEncodeBytes(hash256: Hasher, payload: seq<byte>)
    ensures Decode(CheckEncode(hash256, payload)) == Ok(payload + hash256(payload)[..4])
  {
    hide Encode, Decode;
    DecodeEncode(payload + hash256(payload)[..4]);
  }
}
