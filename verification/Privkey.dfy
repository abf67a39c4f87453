/** Private keys as text: decimal, hexadecimal and WIF. */
module Privkey {
  import opened Bytes
  import opened Radix
  import Base58

  type Secret = s: seq<byte> | |s| == 32 witness seq(32, _ => 0)

  datatype Network = Main | Test
  datatype Key = Key(secret: Secret, network: Network, compressed: bool)

  // The order of the secp256k1 group.
  const ORDER: nat := 0xFFFFFFFF_FFFFFFFF_FFFFFFFF_FFFFFFFE_BAAEDCE6_AF48A03B_BFD25E8C_D0364141
  const TWO_256: nat := 0x1_00000000_00000000_00000000_00000000_00000000_00000000_00000000_00000000

  const OUT_OF_RANGE := "private key out of range"
  const NOT_A_KEY := "not a WIF, hex, or decimal private key"

  function NumberOf(s: seq<byte>): nat {
    ValueBound(s, 256);
    Value(s, 256)
  }

  predicate SecretIsValid(s: Secret) { 1 <= NumberOf(s) < ORDER }

  lemma TwoTo256()
    ensures Pow(256, 32) == TWO_256
  {
    assert Pow(256, 8) == TWO_64;
    PowAdd(256, 8, 8);
    PowAdd(256, 16, 16);
  }

  lemma SecretBound(s: Secret)
    ensures NumberOf(s) < TWO_256
  {
    TwoTo256();
    ValueBound(s, 256);
  }

  lemma SecretUnique(a: Secret, b: Secret)
    requires NumberOf(a) == NumberOf(b)
    ensures a == b
  {
    ValueUnique(a, b, 256);
  }

  // ----- Decimal -----

  predicate LooksLikeDecimal(text: string) {
    text != "" && forall i :: 0 <= i < |text| ==> '0' <= text[i] <= '9'
  }

  function DigitText(ds: seq<int>): (s: string)
    requires InBase(ds, 10)
    ensures |s| == |ds|
  {
    seq(|ds|, i requires 0 <= i < |ds| => ('0' as int + ds[i]) as char)
  }

  function TextDigits(text: string): (ds: seq<int>)
    requires forall i :: 0 <= i < |text| ==> '0' <= text[i] <= '9'
    ensures |ds| == |text| && InBase(ds, 10)
    ensures forall i :: 0 <= i < |text| ==> ds[i] == text[i] as int - '0' as int
  {
    seq(|text|, i requires 0 <= i < |text| => text[i] as int - '0' as int)
  }

  function DecimalNumber(text: string): nat
    requires forall i :: 0 <= i < |text| ==> '0' <= text[i] <= '9'
  {
    ValueBound(TextDigits(text), 10);
    Value(TextDigits(text), 10)
  }

  function EncodeDec(secret: Secret): string {
    if NumberOf(secret) == 0 then "0" else DigitText(Digits(NumberOf(secret), 10))
  }

  function DecodeDec(text: string): Result<Secret> {
    if !LooksLikeDecimal(text) then Err("invalid decimal private key")
    else if 1 <= DecimalNumber(text) < ORDER then Ok(Fixed(DecimalNumber(text), 256, 32))
    else Err(OUT_OF_RANGE)
  }

  /** Multiplies the 32-byte accumulator by ten and adds a digit; false exactly on overflow. */
  method Mul10Add(acc: array<byte>, digit: nat) returns (ok: bool)
    requires acc.Length == 32 && digit < 10
    modifies acc
    ensures ok <==> 10 * NumberOf(old(acc[..])) + digit < TWO_256
    ensures NumberOf(acc[..]) == (10 * NumberOf(old(acc[..])) + digit) % TWO_256
  {
    hide Pow, Value, Balanced;
    var carry: nat := digit;
    ghost var was := acc[..];
    BalancedStart(10, 256, digit);
    var i := 32;
    assert acc[i..] == was[i..] == [];
    while i > 0
      invariant 0 <= i <= 32 && acc[..i] == was[..i]
      invariant Balanced(acc[i..], was[i..], 10, 256, carry, digit)
    {
      i := i - 1;
      ghost var tail := acc[i + 1..];
      BalancedStep(tail, was[i + 1..], 10, 256, acc[i], carry, digit);
      var v := acc[i] * 10 + carry;
      acc[i] := v % 256;
      carry := v / 256;
      assert acc[i..] == [acc[i]] + tail && was[i..] == [was[i]] + was[i + 1..];
    }
    assert acc[0..] == acc[..] && was[0..] == was;
    Overflow(acc[..], was, carry, digit);
    return carry == 0;
  }

  lemma Overflow(now: Secret, was: Secret, carry: nat, digit: nat)
    requires Balanced(now, was, 10, 256, carry, digit)
    ensures carry == 0 <==> 10 * NumberOf(was) + digit < TWO_256
    ensures NumberOf(now) == (10 * NumberOf(was) + digit) % TWO_256
  {
    hide Pow, Value;
    TwoTo256();
    SecretBound(now);
  }

  /** Repeated division by ten; the number strictly decreases, so the loop ends. */
  method EncodeSecretDec(secret: Secret) returns (out: string)
    ensures out == EncodeDec(secret)
  {
    hide Pow, Value, Digits;
    var acc := new byte[32](i requires 0 <= i < 32 => secret[i]);
    assert acc[..] == secret;
    var nonzero := false;
    for i := 0 to 32
      invariant nonzero <==> exists j :: 0 <= j < i && secret[j] != 0
    {
      if acc[i] != 0 {
        nonzero := true;
      }
    }
    NonzeroDigit(secret);
    if !nonzero {
      return "0";
    }
    var digits: seq<int> := [];
    while nonzero
      invariant nonzero <==> NumberOf(acc[..]) > 0
      invariant InBase(digits, 10)
      invariant Digits(NumberOf(secret), 10) == Digits(NumberOf(acc[..]), 10) + Reversed(digits)
      decreases NumberOf(acc[..])
    {
      ghost var n := NumberOf(acc[..]);
      var rem: nat;
      rem, nonzero := DivideByTen(acc);
      DigitsUnfold(n, 10);
      digits := digits + [rem];
      assert Reversed(digits) == [rem] + Reversed(digits[..|digits| - 1]);
    }
    DigitsUnfold(0, 10);
    out := DigitText(Reversed(digits));
  }

  function Reversed(s: seq<int>): (r: seq<int>)
    ensures |r| == |s| && forall i :: 0 <= i < |s| ==> r[i] == s[|s| - 1 - i]
  {
    seq(|s|, i requires 0 <= i < |s| => s[|s| - 1 - i])
  }

  lemma NonzeroDigit(s: Secret)
    ensures NumberOf(s) > 0 <==> exists j :: 0 <= j < 32 && s[j] != 0
  {
    hide Pow, Value;
    var zero: Secret := seq(32, _ => 0);
    AllZeros(zero, 256);
    if NumberOf(s) == 0 {
      SecretUnique(s, zero);
    } else if s == zero {
      assert false;
    }
  }

  /** One pass of schoolbook division from the high-order byte down. */
  method DivideByTen(acc: array<byte>) returns (rem: nat, nonzero: bool)
    requires acc.Length == 32
    modifies acc
    ensures rem < 10
    ensures NumberOf(acc[..]) == NumberOf(old(acc[..])) / 10 && rem == NumberOf(old(acc[..])) % 10
    ensures nonzero <==> NumberOf(acc[..]) > 0
  {
    hide Pow;
    ghost var was := acc[..];
    rem, nonzero := 0, false;
    for i := 0 to 32
      invariant rem < 10 && acc[i..] == was[i..]
      invariant 10 * Value(acc[..i], 256) + rem == Value(was[..i], 256)
      invariant nonzero <==> exists j :: 0 <= j < i && acc[j] != 0
    {
      var v := rem * 256 + acc[i];
      acc[i] := v / 10;
      rem := v % 10;
      if acc[i] != 0 {
        nonzero := true;
      }
      assert acc[..i + 1][..i] == acc[..i] && was[..i + 1][..i] == was[..i];
    }
    assert acc[..32] == acc[..] && was[..32] == was;
    NonzeroDigit(acc[..]);
  }

  method DecodeSecretDec(dec: string) returns (r: Result<Secret>)
    ensures r == DecodeDec(dec)
  {
    hide Pow, Value, Fixed;
    if !LooksLikeDecimal(dec) {
      return Err("invalid decimal private key");
    }
    var acc := new byte[32](_ => 0);
    var started := false;
    AllZeros(acc[..], 256);
    AllZeros(TextDigits(dec[..0]), 10);
    for i := 0 to |dec|
      invariant NumberOf(acc[..]) == DecimalNumber(dec[..i])
      invariant !started ==> NumberOf(acc[..]) == 0
    {
      NextDigit(dec, i);
      if !started && dec[i] == '0' {
        continue;
      }
      started := true;
      var ok := Mul10Add(acc, dec[i] as int - '0' as int);
      if !ok {
        PrefixSmaller(dec, i + 1);
        return Err(OUT_OF_RANGE);
      }
    }
    assert dec[..|dec|] == dec;
    if !SecretIsValid(acc[..]) {
      return Err(OUT_OF_RANGE);
    }
    TwoTo256();
    FixedValue(NumberOf(acc[..]), 256, 32);
    SecretUnique(acc[..], Fixed(DecimalNumber(dec), 256, 32));
    return Ok(acc[..]);
  }

  lemma NextDigit(text: string, i: nat)
    requires i < |text| && forall j :: 0 <= j < |text| ==> '0' <= text[j] <= '9'
    ensures DecimalNumber(text[..i + 1]) == 10 * DecimalNumber(text[..i]) + (text[i] as int - '0' as int)
  {
    assert TextDigits(text[..i + 1])[..i] == TextDigits(text[..i]);
  }

  /** A prefix never denotes more than the whole, so an early overflow is final. */
  lemma {:induction false} PrefixSmaller(text: string, i: nat)
    requires i <= |text| && forall j :: 0 <= j < |text| ==> '0' <= text[j] <= '9'
    ensures DecimalNumber(text[..i]) <= DecimalNumber(text)
    decreases |text| - i
  {
    if i < |text| {
      NextDigit(text, i);
      PrefixSmaller(text, i + 1);
    } else {
      assert text[..i] == text;
    }
  }

  /** Printing then reading a valid secret gives it back. */
  lemma DecodeEncodeDec(secret: Secret)
    requires SecretIsValid(secret)
    ensures DecodeDec(EncodeDec(secret)) == Ok(secret)
  {
    hide Pow, Value, Digits, Fixed;
    var n := NumberOf(secret);
    var ds := Digits(n, 10);
    assert TextDigits(DigitText(ds)) == ds;
    DigitsValue(n, 10);
    TwoTo256();
    FixedValue(n, 256, 32);
    SecretUnique(secret, Fixed(n, 256, 32));
  }

  /** Reading then printing accepted text gives it back without its leading zeros. */
  lemma EncodeDecodeDec(text: string)
    requires DecodeDec(text).Ok?
    ensures EncodeDec(DecodeDec(text).value) == text[Base58.LeadingCount(text, '0')..]
  {
    hide Pow, Value, Digits, Fixed;
    var z := Base58.LeadingCount(text, '0');
    var ds := TextDigits(text);
    TwoTo256();
    FixedValue(DecimalNumber(text), 256, 32);
    ValueSkipZeros(ds, z, 10);
    DigitsOfValue(ds[z..], 10);
    assert DigitText(ds[z..]) == text[z..];
  }

  // ----- Hexadecimal -----

  function Nibble(c: char): int {
    if '0' <= c <= '9' then c as int - '0' as int
    else if 'a' <= c <= 'f' then c as int - 'a' as int + 10
    else if 'A' <= c <= 'F' then c as int - 'A' as int + 10
    else -1
  }

  function HexDigit(v: int): char
    requires 0 <= v < 16
  {
    "0123456789abcdef"[v]
  }

  lemma NibbleOfHexDigit(v: int)
    requires 0 <= v < 16
    ensures Nibble(HexDigit(v)) == v
  {
  }

  function EncodeHex(s: seq<byte>): (text: string)
    ensures |text| == 2 * |s|
  {
    if s == [] then "" else [HexDigit(s[0] / 16), HexDigit(s[0] % 16)] + EncodeHex(s[1..])
  }

  function DecodeHex(text: string): Result<seq<byte>> {
    if text == "" then Ok([])
    else if |text| == 1 || Nibble(text[0]) < 0 || Nibble(text[1]) < 0 then Err("invalid hex")
    else
      match DecodeHex(text[2..])
      case Err(m) => Err(m)
      case Ok(rest) => Ok([Nibble(text[0]) * 16 + Nibble(text[1])] + rest)
  }

  predicate IsHex64(text: string) {
    |text| == 64 && forall i :: 0 <= i < 64 ==> Nibble(text[i]) >= 0
  }

  lemma {:induction false} HexRoundTrip(s: seq<byte>)
    ensures DecodeHex(EncodeHex(s)) == Ok(s)
    ensures forall i :: 0 <= i < |EncodeHex(s)| ==> Nibble(EncodeHex(s)[i]) >= 0
  {
    hide HexDigit, Nibble;
    if s != [] {
      HexRoundTrip(s[1..]);
      NibbleOfHexDigit(s[0] / 16);
      NibbleOfHexDigit(s[0] % 16);
      assert EncodeHex(s)[2..] == EncodeHex(s[1..]);
      assert s == [s[0]] + s[1..];
    }
  }

  function DecodeSecretHex(text: string): Result<Secret> {
    if |text| != 64 then Err("invalid hex private key")
    else
      match DecodeHex(text)
      case Err(_) => Err("invalid hex private key")
      case Ok(raw) =>
        if |raw| != 32 then Err("invalid hex private key")
        else if SecretIsValid(raw) then Ok(raw) else Err(OUT_OF_RANGE)
  }

  // ----- Wallet import format -----

  datatype WifResult = WifOk(key: Key) | NotWif | BadChecksum | Invalid | OutOfRange

  function WifVersion(n: Network): byte { if n == Test then 0xEF else 0x80 }

  function EncodeWif(hash256: Hasher, key: Key): string {
    Base58.CheckEncode(hash256, WifPayload(key))
  }

  function WifPayload(key: Key): seq<byte> {
    [WifVersion(key.network)] + key.secret + (if key.compressed then [0x01] else [])
  }

  function TryParseWif(hash256: Hasher, text: string): WifResult {
    match Base58.Decode(text)
    case Err(_) => NotWif
    case Ok(raw) =>
      if |raw| < 4 then NotWif
      else
        var payload := raw[..|raw| - 4];
        if hash256(payload)[..4] != raw[|raw| - 4..] then
          if |raw| == 37 || |raw| == 38 then BadChecksum else NotWif
        else if |payload| != 33 && |payload| != 34 then NotWif
        else if payload[0] != 0x80 && payload[0] != 0xEF then NotWif
        else if |payload| == 34 && payload[33] != 0x01 then Invalid
        else if !SecretIsValid(payload[1..33]) then OutOfRange
        else WifOk(Key(payload[1..33], if payload[0] == 0xEF then Test else Main, |payload| == 34))
  }

  function DecodeWif(hash256: Hasher, text: string): Result<Key> {
    match TryParseWif(hash256, text)
    case WifOk(key) => Ok(key)
    case BadChecksum => Err("invalid WIF checksum")
    case OutOfRange => Err(OUT_OF_RANGE)
    case _ => Err(NOT_A_KEY)
  }

  function ParsePrivkeyString(hash256: Hasher, text: string): Result<Key> {
    match TryParseWif(hash256, text)
    case WifOk(key) => Ok(key)
    case BadChecksum => Err("invalid WIF checksum")
    case OutOfRange => Err(OUT_OF_RANGE)
    case Invalid => Err(NOT_A_KEY)
    case NotWif =>
      if IsHex64(text) then WithDefaults(DecodeSecretHex(text))
      else if LooksLikeDecimal(text) then WithDefaults(DecodeDec(text))
      else Err(NOT_A_KEY)
  }

  function WithDefaults(r: Result<Secret>): Result<Key> {
    match r
    case Ok(s) => Ok(Key(s, Main, true))
    case Err(m) => Err(m)
  }

  /** A text is the WIF of a valid key exactly when decoding it yields that key. */
  lemma WifCanonical(hash256: Hasher, key: Key, text: string)
    requires SecretIsValid(key.secret)
    ensures DecodeWif(hash256, text) == Ok(key) <==> text == EncodeWif(hash256, key)
  {
    hide Pow, Value, Base58.Encode, Base58.Decode;
    var payload := WifPayload(key);
    assert payload[1..33] == key.secret;
    Base58.CheckCanonical(hash256, payload, text);
    if DecodeWif(hash256, text) == Ok(key) {
      var raw := Base58.Decode(text).value;
      assert raw[..|raw| - 4] == payload;
    }
  }

  /** Decoding 64 Base58 characters always gives more than the 38 bytes of a WIF payload. */
  lemma SixtyFourIsTooLong(text: string)
    requires |text| == 64 && Base58.Decode(text).Ok?
    ensures |Base58.Decode(text).value| > 38
  {
    hide Pow, Value, Digits;
    var zeros := Base58.LeadingCount(text, '1');
    if zeros <= 38 {
      var ds := Base58.FromText(text);
      Base58.AlphabetInverse(0, text[zeros]);
      assert ds[zeros] != 0;
      ValueSkipZeros(ds, zeros, 58);
      LeadingDigitBound(ds[zeros..], 58);
      BigEnough(63 - zeros, 38 - zeros);
      DigitsAtLeast(Value(ds, 58), 256, 38 - zeros);
    }
  }

  lemma BigEnough(k: nat, n: nat)
    requires n <= 38 && k == n + 25
    ensures Pow(256, n) <= Pow(58, k)
  {
    assert Pow(256, 8) == 18446744073709551616 && Pow(58, 11) == 24986644000165537792;
    hide Pow;
    PowCompare(256, 8, 58, 11, n, k);
  }

  /** The bare-string guess never mistakes a printed hexadecimal secret for something else. */
  lemma ParseEncodedHex(hash256: Hasher, secret: Secret)
    requires SecretIsValid(secret)
    ensures ParsePrivkeyString(hash256, EncodeHex(secret)) == Ok(Key(secret, Main, true))
  {
    hide Base58.Decode, EncodeHex, DecodeHex;
    var text := EncodeHex(secret);
    HexRoundTrip(secret);
    if Base58.Decode(text).Ok? {
      SixtyFourIsTooLong(text);
    }
    assert TryParseWif(hash256, text) == NotWif;
  }

  // ----- What the text forms are, byte by byte -----

  /** A WIF is the Base58 of 0x80 (0xEF for test keys), the secret, 0x01 if compressed, and four bytes of their hash. */
  lemma WifBytes(hash256: Hasher, key: Key)
    ensures var payload := (if key.network == Test then [0xEF] else [0x80]) + key.secret
                           + (if key.compressed then [0x01] else []);
      Base58.Decode(EncodeWif(hash256, key)) == Ok(payload + hash256(payload)[..4])
  {
    hide Base58.Encode, Base58.Decode;
    Base58.DecodeEncode(WifPayload(key) + hash256(WifPayload(key))[..4]);
  }

  /** Every valid key comes back from its WIF with its network and compression flag. */
  lemma ParseEncodedWif(hash256: Hasher, key: Key)
    requires SecretIsValid(key.secret)
    ensures ParsePrivkeyString(hash256, EncodeWif(hash256, key)) == Ok(key)
  {
    hide TryParseWif, EncodeWif;
    WifCanonical(hash256, key, EncodeWif(hash256, key));
  }

  /** Text that the parser does not treat as a WIF, good or bad. */
  predicate NotWifShaped(hash256: Hasher, text: string) {
    match Base58.Decode(text)
    case Err(_) => true
    case Ok(raw) =>
      || |raw| < 4
      || (hash256(raw[..|raw| - 4])[..4] != raw[|raw| - 4..] && |raw| != 37 && |raw| != 38)
      || (hash256(raw[..|raw| - 4])[..4] == raw[|raw| - 4..]
          && ((|raw| != 37 && |raw| != 38) || (raw[0] != 0x80 && raw[0] != 0xEF)))
  }

  lemma NotWifIff(hash256: Hasher, text: string)
    ensures TryParseWif(hash256, text) == NotWif <==> NotWifShaped(hash256, text)
  {
    hide Base58.Decode;
  }

  /** Digits 2i and 2i + 1 spell byte i, in either letter case. */
  predicate SpelledAt(text: string, raw: seq<byte>, i: nat)
    requires |text| == 2 * |raw| && i < |raw|
  {
    && Nibble(text[2 * i]) >= 0 && Nibble(text[2 * i + 1]) >= 0
    && raw[i] == 16 * Nibble(text[2 * i]) + Nibble(text[2 * i + 1])
  }

  /** Hexadecimal text decodes to exactly the bytes its digit pairs spell. */
  lemma {:induction false} HexMeans(text: string, raw: seq<byte>)
    requires |text| == 2 * |raw|
    ensures DecodeHex(text) == Ok(raw) <==> forall i :: 0 <= i < |raw| ==> SpelledAt(text, raw, i)
  {
    hide Nibble;
    if raw != [] {
      HexMeans(text[2..], raw[1..]);
      assert raw == [raw[0]] + raw[1..];
      assert DecodeHex(text) == Ok(raw) <==> SpelledAt(text, raw, 0) && DecodeHex(text[2..]) == Ok(raw[1..]);
      if forall i :: 0 <= i < |raw| ==> SpelledAt(text, raw, i) {
        forall i | 0 <= i < |raw| - 1 ensures SpelledAt(text[2..], raw[1..], i) { assert SpelledAt(text, raw, i + 1); }
      }
      if SpelledAt(text, raw, 0) && forall i :: 0 <= i < |raw| - 1 ==> SpelledAt(text[2..], raw[1..], i) {
        forall i | 0 <= i < |raw| ensures SpelledAt(text, raw, i) {
          if i > 0 {
            assert SpelledAt(text[2..], raw[1..], i - 1);
          }
        }
      }
    }
  }

  predicate IsHexOf(text: string, secret: Secret) {
    |text| == 64 && forall i :: 0 <= i < 32 ==> SpelledAt(text, secret, i)
  }

  /** Decimal digits, any number of leading zeros, of the secret read as a big-endian number. */
  predicate IsDecimalOf(text: string, secret: Secret) {
    LooksLikeDecimal(text) && DecimalNumber(text) == NumberOf(secret)
  }

  lemma HexSecretIff(text: string, secret: Secret)
    requires SecretIsValid(secret) && IsHex64(text)
    ensures DecodeSecretHex(text) == Ok(secret) <==> IsHexOf(text, secret)
  {
    hide DecodeHex, Nibble, SpelledAt, NumberOf;
    HexMeans(text, secret);
  }

  lemma DecimalSecretIff(text: string, secret: Secret)
    requires SecretIsValid(secret) && LooksLikeDecimal(text)
    ensures DecodeDec(text) == Ok(secret) <==> DecimalNumber(text) == NumberOf(secret)
  {
    hide Pow, Value, Digits, Fixed;
    TwoTo256();
    if DecimalNumber(text) < TWO_256 {
      FixedValue(DecimalNumber(text), 256, 32);
      if DecimalNumber(text) == NumberOf(secret) {
        SecretUnique(secret, Fixed(DecimalNumber(text), 256, 32));
      }
    }
  }

  /**
   * Bare text parses to a key exactly when it is that valid key's WIF, or is not WIF-shaped and is the secret in
   * hexadecimal (64 digits) or else in decimal, the key then being a main-network key marked compressed.
   */
  lemma ParsesIff(hash256: Hasher, text: string, key: Key)
    ensures ParsePrivkeyString(hash256, text) == Ok(key) <==>
      && SecretIsValid(key.secret)
      && (|| text == EncodeWif(hash256, key)
          || (&& NotWifShaped(hash256, text) && key.network == Main && key.compressed
              && (if IsHex64(text) then IsHexOf(text, key.secret) else IsDecimalOf(text, key.secret))))
  {
    hide TryParseWif, EncodeWif, DecodeDec, DecodeSecretHex, NotWifShaped, IsHex64, LooksLikeDecimal, NumberOf;
    NotWifIff(hash256, text);
    ParsedIsValid(hash256, text);
    if SecretIsValid(key.secret) {
      WifCanonical(hash256, key, text);
      if IsHex64(text) {
        HexSecretIff(text, key.secret);
      } else if LooksLikeDecimal(text) {
        DecimalSecretIff(text, key.secret);
      }
    }
  }

  lemma ParsedIsValid(hash256: Hasher, text: string)
    ensures TryParseWif(hash256, text).WifOk? ==> SecretIsValid(TryParseWif(hash256, text).key.secret)
    ensures DecodeDec(text).Ok? ==> SecretIsValid(DecodeDec(text).value)
    ensures DecodeSecretHex(text).Ok? ==> SecretIsValid(DecodeSecretHex(text).value)
  {
    hide Base58.Decode, DecodeHex, Pow, Value, Fixed;
    TwoTo256();
    if DecodeDec(text).Ok? {
      FixedValue(DecimalNumber(text), 256, 32);
    }
  }

  /** The group order, from its distance to 2^256. */
  lemma OrderIs()
    ensures Pow(256, 32) - ORDER == 432420386565659656852420866394968145599
  {
    TwoTo256();
  }

  lemma NumberIs258(secret: Secret)
    requires secret == seq(30, _ => 0) + [1, 2]
    ensures NumberOf(secret) == 258
  {
    ValueSkipZeros(secret, 30, 256);
    var tail: seq<int> := [1, 2];
    assert secret[30..] == tail && tail[..1] == [1];
    hide Pow;
    ValueNextDigit([], 1, 256);
    ValueNextDigit([1], 2, 256);
    assert [] + [1] == [1] && [1] + [2] == tail;
  }

  lemma ValueNextDigit(ds: seq<int>, d: int, base: nat)
    ensures Value(ds + [d], base) == Value(ds, base) * base + d
    ensures Value([], base) == 0
  {
    assert (ds + [d])[..|ds|] == ds;
  }

  lemma Digits258()
    ensures Digits(258, 10) == [2, 5, 8] && DigitText([2, 5, 8]) == "258"
  {
    DigitsUnfold(258, 10);
    DigitsUnfold(25, 10);
    DigitsUnfold(2, 10);
    DigitsUnfold(0, 10);
    hide Digits;
  }

  /** The secret 00..00 01 02 is 258: bytes are big-endian, digits most significant first. */
  lemma TwoFiftyEight(secret: Secret)
    requires secret == seq(30, _ => 0) + [1, 2]
    ensures EncodeDec(secret) == "258" && DecodeDec("0258") == Ok(secret)
  {
    hide Pow, Value, Digits, Fixed, NumberOf, DecodeDec;
    NumberIs258(secret);
    Digits258();
    OrderIsLarge();
    DecodeEncodeDec(secret);
    LeadingZeroIgnored("258", secret);
    assert "0" + "258" == "0258";
  }

  lemma OrderIsLarge()
    ensures ORDER > 258
  {
  }

  lemma LeadingZeroIgnored(text: string, secret: Secret)
    requires DecodeDec(text) == Ok(secret)
    ensures DecodeDec("0" + text) == Ok(secret)
  {
    hide Pow, Digits, Fixed, Value;
    var ds := TextDigits("0" + text);
    assert ds[1..] == TextDigits(text);
    ValueSkipZeros(ds, 1, 10);
  }
  /** The hexadecimal digits, in either letter case. */
  lemma HexTable(c: char, v: int)
    ensures 0 <= v < 16 ==> (Nibble(c) == v <==> c == "0123456789abcdef"[v] || c == "0123456789ABCDEF"[v])
    ensures 0 <= v < 16 ==> HexDigit(v) == "0123456789abcdef"[v]
    ensures -1 <= Nibble(c) < 16
  {
  }

  /** What decodes is written back digit by digit in lower case. */
  lemma {:induction false} HexRespelled(text: string)
    requires DecodeHex(text).Ok?
    ensures |EncodeHex(DecodeHex(text).value)| == |text|
    ensures forall i :: 0 <= i < |text| ==> IsRespelled(text[i], EncodeHex(DecodeHex(text).value)[i])
  {
    hide IsRespelled, Nibble, HexDigit;
    if text != "" {
      PairRespelled(text[0], text[1]);
      var tail := text[2..];
      HexRespelled(tail);
      var raw := DecodeHex(text).value;
      assert raw[1..] == DecodeHex(tail).value;
      FirstPair(raw);
      forall i | 0 <= i < |text| ensures IsRespelled(text[i], EncodeHex(raw)[i]) {
        if i >= 2 {
          assert IsRespelled(tail[i - 2], EncodeHex(raw[1..])[i - 2]);
        }
      }
    }
  }

  lemma FirstPair(raw: seq<byte>)
    requires raw != []
    ensures EncodeHex(raw) == [HexDigit(raw[0] / 16), HexDigit(raw[0] % 16)] + EncodeHex(raw[1..])
  {
  }

  predicate IsRespelled(c: char, d: char) { 0 <= Nibble(c) < 16 && d == HexDigit(Nibble(c)) }

  lemma PairRespelled(c: char, d: char)
    requires Nibble(c) >= 0 && Nibble(d) >= 0
    ensures var b := Nibble(c) * 16 + Nibble(d);
      0 <= b < 256 && IsRespelled(c, HexDigit(b / 16)) && IsRespelled(d, HexDigit(b % 16))
  {
    hide HexDigit;
  }
}
