/** The Bech32 and Bech32m string format (BIP-173, BIP-350). */
module Bech32 {
  import opened Bytes
  import opened Bech32Checksum

  const CHARSET: string := "qpzry9x8" + "gf2tvdw0" + "s3jn54kh" + "ce6mua7l"

  /** Where a character stands in the charset; -1 when it does not. */
  function SymbolOf(c: char): (v: int)
    ensures -1 <= v < 32
  {
    match c
    case 'q' => 0 case 'p' => 1 case 'z' => 2 case 'r' => 3 case 'y' => 4 case '9' => 5 case 'x' => 6 case '8' => 7
    case 'g' => 8 case 'f' => 9 case '2' => 10 case 't' => 11 case 'v' => 12 case 'd' => 13 case 'w' => 14 case '0' => 15
    case 's' => 16 case '3' => 17 case 'j' => 18 case 'n' => 19 case '5' => 20 case '4' => 21 case 'k' => 22 case 'h' => 23
    case 'c' => 24 case 'e' => 25 case '6' => 26 case 'm' => 27 case 'u' => 28 case 'a' => 29 case '7' => 30 case 'l' => 31
    case _ => -1
  }

  lemma CharsetInverse(v: int, c: char)
    ensures |CHARSET| == 32
    ensures 0 <= v < 32 ==> SymbolOf(CHARSET[v]) == v
    ensures SymbolOf(c) >= 0 ==> CHARSET[SymbolOf(c)] == c
  {
    if 0 <= v < 8 {
      assert CHARSET[v] == "qpzry9x8"[v];
    } else if 8 <= v < 16 {
      assert CHARSET[v] == "gf2tvdw0"[v - 8];
    } else if 16 <= v < 24 {
      assert CHARSET[v] == "s3jn54kh"[v - 16];
    } else if 24 <= v < 32 {
      assert CHARSET[v] == "ce6mua7l"[v - 24];
    }
  }

  predicate IsUpper(c: char) { 'A' <= c <= 'Z' }

  predicate IsLower(c: char) { 'a' <= c <= 'z' }

  function LowerChar(c: char): char {
    if IsUpper(c) then (c as int + 32) as char else c
  }

  function Lower(s: string): (r: string)
    ensures |r| == |s| && forall i :: 0 <= i < |s| ==> r[i] == LowerChar(s[i])
  {
    seq(|s|, i requires 0 <= i < |s| => LowerChar(s[i]))
  }

  function CharsetRev(c: char): (v: int)
    ensures -1 <= v < 32
  {
    SymbolOf(LowerChar(c))
  }

  method FindInCharset(ch: char) returns (v: int)
    ensures v == CharsetRev(ch)
  {
    hide SymbolOf, CHARSET;
    var c := LowerChar(ch);
    CharsetInverse(0, c);
    for i := 0 to 32
      invariant SymbolOf(c) == -1 || SymbolOf(c) >= i
    {
      CharsetInverse(i, c);
      if CHARSET[i] == c {
        return i;
      }
    }
    return -1;
  }

  datatype Variant = Classic | Modified

  function Target(v: Variant): word { if v == Modified then 0x2bc830a3 else 1 }

  predicate Printable(s: string) { forall i :: 0 <= i < |s| ==> 33 as char <= s[i] <= 126 as char }

  predicate HasUpper(s: string) { exists i :: 0 <= i < |s| && IsUpper(s[i]) }

  predicate HasLower(s: string) { exists i :: 0 <= i < |s| && IsLower(s[i]) }

  predicate ValidHrp(hrp: string) { 1 <= |hrp| <= 83 && Printable(hrp) && !HasUpper(hrp) }

  /** The prefix as checksum input: high bits, a zero, low bits. */
  function HrpExpand(hrp: string): (vs: seq<byte>)
    requires Printable(hrp)
    ensures IsSymbols(vs)
  {
    seq(|hrp|, i requires 0 <= i < |hrp| => hrp[i] as int / 32) + [0] +
    seq(|hrp|, i requires 0 <= i < |hrp| => hrp[i] as int % 32)
  }

  function ToChars(vs: seq<byte>): (s: string)
    requires IsSymbols(vs)
    ensures |s| == |vs|
  {
    seq(|vs|, i requires 0 <= i < |vs| => CHARSET[vs[i]])
  }

  predicate IsData(s: string) { forall i :: 0 <= i < |s| ==> CharsetRev(s[i]) >= 0 }

  function ToSymbols(s: string): (vs: seq<byte>)
    requires IsData(s)
    ensures |vs| == |s| && IsSymbols(vs)
    ensures forall i :: 0 <= i < |s| ==> vs[i] == CharsetRev(s[i])
  {
    seq(|s|, i requires 0 <= i < |s| => CharsetRev(s[i]))
  }

  // ----- What encoding and decoding compute -----

  function ChecksumOf(hrp: string, values: seq<byte>, variant: Variant): (six: seq<byte>)
    requires Printable(hrp)
    ensures |six| == 6 && IsSymbols(six)
  {
    Checksum(Absorb(1, HrpExpand(hrp) + values), Target(variant))
  }

  function Encode(hrp: string, values: seq<byte>, variant: Variant): Result<string> {
    if !ValidHrp(hrp) then Err("invalid bech32 hrp")
    else if !IsSymbols(values) then Err("invalid bech32 data")
    else if |hrp| + 1 + |values| + 6 > 90 then Err("invalid bech32 length")
    else Ok(hrp + "1" + ToChars(values + ChecksumOf(hrp, values, variant)))
  }

  datatype Decoded = Decoded(hrp: string, values: seq<byte>, variant: Variant)

  function LastOne(s: string): (i: int)
    ensures -1 <= i < |s|
    ensures i >= 0 ==> s[i] == '1'
    ensures forall j :: i < j < |s| ==> s[j] != '1'
  {
    if s == "" then -1
    else if s[|s| - 1] == '1' then |s| - 1
    else LastOne(s[..|s| - 1])
  }

  predicate WellShaped(s: string) {
    && 8 <= |s| <= 90 && Printable(s) && !(HasLower(s) && HasUpper(s))
    && LastOne(s) >= 1 && LastOne(s) + 7 <= |s| && IsData(s[LastOne(s) + 1..])
  }

  function Register(s: string): word
    requires WellShaped(s)
  {
    Absorb(1, HrpExpand(Lower(s[..LastOne(s)])) + ToSymbols(s[LastOne(s) + 1..]))
  }

  function Decode(s: string): Option<Decoded> {
    if !WellShaped(s) then None
    else
      var hrp, data := Lower(s[..LastOne(s)]), ToSymbols(s[LastOne(s) + 1..]);
      if Register(s) == Target(Classic) then Some(Decoded(hrp, data[..|data| - 6], Classic))
      else if Register(s) == Target(Modified) then Some(Decoded(hrp, data[..|data| - 6], Modified))
      else None
  }

  lemma PrefixFits(hrp: string, values: seq<byte>)
    requires Printable(hrp) && IsSymbols(values)
    ensures IsSymbols(HrpExpand(hrp) + values) && Fits30(Absorb(1, HrpExpand(hrp) + values))
  {
    hide Absorb, HrpExpand;
    AbsorbFits(1, HrpExpand(hrp) + values);
  }

  method SpellSymbols(vs: seq<byte>) returns (out: string)
    requires IsSymbols(vs)
    ensures out == ToChars(vs)
  {
    out := "";
    CharsetInverse(0, 'q');
    for i := 0 to |vs|
      invariant out == ToChars(vs[..i])
    {
      assert ToChars(vs[..i + 1]) == ToChars(vs[..i]) + [CHARSET[vs[i]]];
      out := out + [CHARSET[vs[i]]];
    }
    assert vs[..|vs|] == vs;
  }

  method SpellRegister(mod: word) returns (out: string)
    ensures out == ToChars(Symbols(mod, 6))
  {
    hide Symbols, Group;
    out := "";
    CharsetInverse(0, 'q');
    ghost var six := Symbols(mod, 6);
    for i := 0 to 6
      invariant out == ToChars(six[..i])
    {
      GroupIsSymbol(mod, i);
      assert ToChars(six[..i + 1]) == ToChars(six[..i]) + [CHARSET[six[i]]];
      out := out + [CHARSET[Group(mod, i) as int]];
    }
    assert six[..6] == six;
  }

  method Bech32Encode(hrp: string, values: seq<byte>, variant: Variant) returns (r: Result<string>)
    ensures r == Encode(hrp, values, variant)
  {
    hide Absorb, Symbols, Zeros, Group, Xor;
    if !ValidHrp(hrp) {
      return Err("invalid bech32 hrp");
    }
    if !IsSymbols(values) {
      return Err("invalid bech32 data");
    }
    var chk := HrpExpand(hrp) + values;
    ghost var prefix := Absorb(1, chk);
    AbsorbConcat(1, chk, Zeros(6));
    chk := chk + Zeros(6);
    var mod := Polymod(chk);
    mod := Xor(mod, Target(variant));
    var data := SpellSymbols(values);
    var tail := SpellRegister(mod);
    var out := hrp + "1" + data + tail;
    ghost var six := ChecksumOf(hrp, values, variant);
    assert ToChars(values + six) == ToChars(values) + ToChars(six);
    assert out == hrp + "1" + ToChars(values + six);
    if |out| > 90 {
      return Err("invalid bech32 length");
    }
    return Ok(out);
  }

  method ScanCase(s: string) returns (printable: bool, lower: bool, upper: bool)
    ensures printable <==> Printable(s)
    ensures printable ==> (lower <==> HasLower(s)) && (upper <==> HasUpper(s))
  {
    printable, lower, upper := true, false, false;
    for i := 0 to |s|
      invariant lower <==> exists j :: 0 <= j < i && IsLower(s[j])
      invariant upper <==> exists j :: 0 <= j < i && IsUpper(s[j])
      invariant forall j :: 0 <= j < i ==> 33 as char <= s[j] <= 126 as char
    {
      if s[i] < 33 as char || s[i] > 126 as char {
        return false, lower, upper;
      }
      if IsLower(s[i]) {
        lower := true;
      } else if IsUpper(s[i]) {
        upper := true;
      }
    }
  }

  method ReadData(s: string) returns (data: Option<seq<byte>>)
    ensures data == if IsData(s) then Some(ToSymbols(s)) else None
  {
    hide CharsetRev;
    var vs: seq<byte> := [];
    for i := 0 to |s|
      invariant IsData(s[..i]) && vs == ToSymbols(s[..i])
    {
      var v := FindInCharset(s[i]);
      if v < 0 {
        return None;
      }
      vs := vs + [v as byte];
    }
    assert s[..|s|] == s;
    return Some(vs);
  }

  lemma LowerPrintable(s: string, n: nat)
    requires Printable(s) && n <= |s|
    ensures Printable(Lower(s[..n]))
  {
  }

  method Bech32Decode(encoded: string) returns (r: Option<Decoded>)
    ensures r == Decode(encoded)
  {
    hide Absorb, Xor, HrpExpand, CharsetRev, Printable, HasLower, HasUpper, IsData;
    if |encoded| < 8 || |encoded| > 90 {
      return None;
    }
    var printable, lower, upper := ScanCase(encoded);
    if !printable {
      return None;
    }
    if lower && upper {
      return None;
    }
    var sep := |encoded| - 1;
    while sep >= 0 && encoded[sep] != '1'
      invariant -1 <= sep < |encoded| && forall j :: sep < j < |encoded| ==> encoded[j] != '1'
    {
      sep := sep - 1;
    }
    if sep <= 0 || sep + 7 > |encoded| {
      return None;
    }
    var hrp := Lower(encoded[..sep]);
    LowerPrintable(encoded, sep);
    var data := ReadData(encoded[sep + 1..]);
    if data.None? {
      return None;
    }
    var mod := Polymod(HrpExpand(hrp) + data.value);
    if mod == Target(Classic) {
      return Some(Decoded(hrp, data.value[..|data.value| - 6], Classic));
    } else if mod == Target(Modified) {
      return Some(Decoded(hrp, data.value[..|data.value| - 6], Modified));
    }
    return None;
  }

  // ----- Round trips -----

  lemma ToCharsInverse(vs: seq<byte>)
    requires IsSymbols(vs)
    ensures IsData(ToChars(vs)) && ToSymbols(ToChars(vs)) == vs
    ensures Printable(ToChars(vs)) && !HasUpper(ToChars(vs)) && forall i :: 0 <= i < |vs| ==> ToChars(vs)[i] != '1'
  {
    forall i | 0 <= i < |vs|
      ensures var c := ToChars(vs)[i];
        CharsetRev(c) == vs[i] && 33 as char <= c <= 126 as char && !IsUpper(c) && c != '1'
    {
      SymbolChar(vs[i]);
    }
  }

  lemma SymbolChar(v: byte)
    requires v < 32
    ensures |CHARSET| == 32
    ensures var c := CHARSET[v];
      CharsetRev(c) == v && 33 as char <= c <= 126 as char && !IsUpper(c) && c != '1'
  {
    hide CHARSET;
    CharsetInverse(v, '1');
  }

  /** The data part never holds a '1', so the last '1' of an encoded string is the separator. */
  lemma JoinedShape(hrp: string, vs: seq<byte>)
    requires ValidHrp(hrp) && IsSymbols(vs) && 6 <= |vs| && |hrp| + 1 + |vs| <= 90
    ensures var s := hrp + "1" + ToChars(vs);
      WellShaped(s) && s[..LastOne(s)] == hrp && s[LastOne(s) + 1..] == ToChars(vs) && Lower(hrp) == hrp
  {
    hide CHARSET, CharsetRev, LastOne, ToChars, IsData, HasUpper, Printable;
    var t := ToChars(vs);
    ToCharsInverse(vs);
    JoinedParts(hrp, t);
    JoinedCase(hrp, t);
  }

  lemma JoinedParts(hrp: string, t: string)
    requires forall i :: 0 <= i < |t| ==> t[i] != '1'
    ensures var s := hrp + "1" + t; LastOne(s) == |hrp| && s[..|hrp|] == hrp && s[|hrp| + 1..] == t
  {
    hide LastOne;
    var s := hrp + "1" + t;
    assert s[|hrp|] == '1';
    assert s[..|hrp|] == hrp && s[|hrp| + 1..] == t;
    assert forall j :: |hrp| < j < |s| ==> s[j] == t[j - |hrp| - 1];
  }

  lemma JoinedCase(hrp: string, t: string)
    requires Printable(hrp) && Printable(t) && !HasUpper(hrp) && !HasUpper(t)
    ensures Printable(hrp + "1" + t) && !HasUpper(hrp + "1" + t) && Lower(hrp) == hrp
  {
    var s := hrp + "1" + t;
    forall i | 0 <= i < |s| ensures 33 as char <= s[i] <= 126 as char && !IsUpper(s[i]) {
      if i < |hrp| {
        assert s[i] == hrp[i];
      } else if i > |hrp| {
        assert s[i] == t[i - |hrp| - 1];
      }
    }
  }

  /** The checksum register of a joined string, symbol by symbol. */
  lemma RegisterOfJoin(hrp: string, values: seq<byte>, six: seq<byte>, variant: Variant)
    requires Printable(hrp) && IsSymbols(values) && IsSymbols(six) && |six| == 6
    ensures Absorb(1, HrpExpand(hrp) + (values + six)) == Target(variant) <==> six == ChecksumOf(hrp, values, variant)
  {
    hide Absorb, Checksum, HrpExpand;
    PrefixFits(hrp, values);
    assert HrpExpand(hrp) + (values + six) == (HrpExpand(hrp) + values) + six;
    AbsorbConcat(1, HrpExpand(hrp) + values, six);
    ChecksumUnique(Absorb(1, HrpExpand(hrp) + values), Target(variant), six);
  }

  lemma TargetsDiffer()
    ensures Target(Classic) != Target(Modified)
  {
  }

  /** Decoding an encoded string returns exactly the prefix, values and variant that went in. */
  lemma DecodeEncode(hrp: string, values: seq<byte>, variant: Variant)
    requires Encode(hrp, values, variant).Ok?
    ensures Decode(Encode(hrp, values, variant).value) == Some(Decoded(hrp, values, variant))
  {
    hide Absorb, Checksum, HrpExpand, CharsetRev, ToChars, IsData, LastOne, WellShaped, Target;
    var six := ChecksumOf(hrp, values, variant);
    var vs := values + six;
    JoinedShape(hrp, vs);
    ToCharsInverse(vs);
    RegisterOfJoin(hrp, values, six, variant);
    TargetsDiffer();
    assert vs[..|vs| - 6] == values;
  }

  /** An accepted string re-encodes to its own lower-case form. */
  lemma EncodeDecode(s: string)
    requires Decode(s).Some?
    ensures var d := Decode(s).value; Encode(d.hrp, d.values, d.variant) == Ok(Lower(s))
  {
    hide Absorb, Checksum, HrpExpand, CHARSET, SymbolOf, Target;
    var d, sep := Decode(s).value, LastOne(s);
    var data := ToSymbols(s[sep + 1..]);
    var values, six := data[..|data| - 6], data[|data| - 6..];
    assert data == values + six;
    LowerPrintable(s, sep);
    RegisterOfJoin(d.hrp, values, six, d.variant);
    LowerOfData(s[sep + 1..]);
    assert Lower(s) == d.hrp + "1" + ToChars(data);
  }

  lemma LowerOfData(s: string)
    requires IsData(s)
    ensures ToChars(ToSymbols(s)) == Lower(s)
  {
    hide CHARSET, SymbolOf;
    CharsetInverse(0, 'q');
    forall i | 0 <= i < |s| ensures CHARSET[CharsetRev(s[i])] == LowerChar(s[i]) {
      CharsetInverse(0, LowerChar(s[i]));
    }
  }

  predicate PlainPrefix(c: char) { 33 <= c as int <= 126 && !('A' <= c <= 'Z') }

  /** What encode accepts: a prefix of 1 to 83 printable characters in lower case, symbols, 90 characters in all. */
  lemma EncodeOkIff(hrp: string, values: seq<byte>, variant: Variant)
    ensures Encode(hrp, values, variant).Ok? <==>
      && 1 <= |hrp| <= 83 && (forall i :: 0 <= i < |hrp| ==> PlainPrefix(hrp[i]))
      && (forall i :: 0 <= i < |values| ==> values[i] < 32) && |hrp| + |values| <= 83
  {
    hide ChecksumOf, ToChars;
  }

  lemma LowerLastOne(s: string)
    ensures LastOne(Lower(s)) == LastOne(s)
  {
    var n := LastOne(s);
    if n >= 0 {
      assert Lower(s)[n] == '1';
    }
    assert forall j :: n < j < |s| ==> Lower(s)[j] != '1';
  }

  lemma LowerCase(s: string)
    ensures !HasUpper(Lower(s)) && Lower(Lower(s)) == Lower(s)
    ensures Printable(Lower(s)) <==> Printable(s)
    ensures IsData(Lower(s)) <==> IsData(s)
    ensures IsData(s) ==> ToSymbols(Lower(s)) == ToSymbols(s)
  {
    hide SymbolOf;
    forall i | 0 <= i < |s|
      ensures LowerChar(Lower(s)[i]) == LowerChar(s[i]) && CharsetRev(Lower(s)[i]) == CharsetRev(s[i])
    {
    }
    assert forall i :: 0 <= i < |s| ==> Lower(s)[i] == LowerChar(s[i]);
  }

  /** Letter case carries no meaning, but a text may not mix cases. */
  lemma Caseless(s: string)
    ensures Decode(s) == if HasLower(s) && HasUpper(s) then None else Decode(Lower(s))
  {
    hide CharsetRev, IsData, Printable, HasLower, HasUpper, LastOne, HrpExpand, Absorb, Lower;
    LowerCase(s);
    LowerLastOne(s);
    var sep := LastOne(s);
    if sep >= 0 {
      assert Lower(s)[..sep] == Lower(s[..sep]) && Lower(s)[sep + 1..] == Lower(s[sep + 1..]);
      LowerCase(s[..sep]);
      LowerCase(s[sep + 1..]);
    }
  }

  /** A text is accepted as d exactly when it is in one case and its lower-case form is d's encoding. */
  lemma AcceptedIff(s: string, d: Decoded)
    ensures Decode(s) == Some(d) <==>
      !(HasLower(s) && HasUpper(s)) && Encode(d.hrp, d.values, d.variant) == Ok(Lower(s))
  {
    hide Encode, Decode, Lower;
    Caseless(s);
    if Decode(s) == Some(d) {
      EncodeDecode(s);
    }
    if Encode(d.hrp, d.values, d.variant) == Ok(Lower(s)) {
      DecodeEncode(d.hrp, d.values, d.variant);
    }
  }

  // ----- Error detection -----

  lemma ToSymbolsConcat(a: string, b: string)
    ensures IsData(a + b) <==> IsData(a) && IsData(b)
    ensures IsData(a + b) ==> ToSymbols(a + b) == ToSymbols(a) + ToSymbols(b)
  {
    hide CharsetRev;
    assert forall i :: 0 <= i < |a| ==> (a + b)[i] == a[i];
    assert forall i :: 0 <= i < |b| ==> (a + b)[|a| + i] == b[i];
  }

  predicate Splits(s: string, head: string, x: string, tail: string) { s == head + x + tail }

  lemma HeadSeparator(s: string, head: string, x: string, tail: string)
    requires Splits(s, head, x, tail) && 0 <= LastOne(s) < |head|
    ensures LastOne(s) == LastOne(head) && s[..LastOne(s)] == head[..LastOne(head)]
    ensures s[LastOne(s) + 1..] == head[LastOne(s) + 1..] + x + tail
  {
    assert s[..|head|] == head;
    assert forall j :: 0 <= j < |head| ==> head[j] == s[j];
  }

  /** Where the data part of head + x + tail starts, and how it splits. */
  lemma DataParts(s: string, head: string, x: string, tail: string)
    requires Splits(s, head, x, tail) && WellShaped(s) && LastOne(s) < |head|
    ensures LastOne(s) == LastOne(head) && s[..LastOne(s)] == head[..LastOne(head)]
    ensures HeadShaped(head) && IsData(x) && IsData(tail)
    ensures ToSymbols(s[LastOne(s) + 1..]) == ToSymbols(head[LastOne(head) + 1..]) + ToSymbols(x) + ToSymbols(tail)
  {
    hide Splits, IsData, Printable, HasLower, HasUpper, LastOne, Lower;
    var sep := LastOne(s);
    HeadSeparator(s, head, x, tail);
    ToSymbolsConcat(head[sep + 1..] + x, tail);
    ToSymbolsConcat(head[sep + 1..], x);
    LowerPrintable(s, sep);
  }

  /**
   * Replacing at most six consecutive data characters of an accepted string, so that some symbol
   * changes, is never accepted under the same variant; the separator stays where it was.
   */
  lemma BurstDetected(head: string, x: string, y: string, tail: string)
    requires Decode(head + x + tail).Some? && LastOne(head + x + tail) < |head|
    requires |y| == |x| <= 6 && IsData(x) && IsData(y) && ToSymbols(y) != ToSymbols(x)
    ensures Decode(head + y + tail).Some? ==>
      && Decode(head + y + tail).value.variant != Decode(head + x + tail).value.variant
      && LastOne(head + y + tail) == LastOne(head + x + tail)
  {
    hide Absorb, HrpExpand, IsData, ToSymbols, LastOne, WellShaped, Register;
    if Decode(head + y + tail).Some? {
      SeparatorStays(head, x, y, tail);
      RegisterOfParts(head + x + tail, head, x, tail);
      RegisterOfParts(head + y + tail, head, y, tail);
      BurstChanges(1, HeadSymbols(head), ToSymbols(x), ToSymbols(y), ToSymbols(tail));
    }
  }

  predicate HeadShaped(head: string) {
    LastOne(head) >= 0 && Printable(Lower(head[..LastOne(head)])) && IsData(head[LastOne(head) + 1..])
  }

  function HeadSymbols(head: string): (vs: seq<byte>)
    requires HeadShaped(head)
    ensures IsSymbols(vs)
  {
    HrpExpand(Lower(head[..LastOne(head)])) + ToSymbols(head[LastOne(head) + 1..])
  }

  lemma RegisterOfParts(s: string, head: string, x: string, tail: string)
    requires Splits(s, head, x, tail) && WellShaped(s) && LastOne(s) < |head|
    ensures HeadShaped(head) && IsData(x) && IsData(tail)
    ensures Register(s) == Absorb(1, HeadSymbols(head) + ToSymbols(x) + ToSymbols(tail))
  {
    hide Splits, Absorb, HrpExpand, IsData, ToSymbols, LastOne, Printable, Lower, IsSymbols, HasLower, HasUpper;
    DataParts(s, head, x, tail);
    var sep := LastOne(head);
    Regroup(HrpExpand(Lower(head[..sep])), ToSymbols(head[sep + 1..]), ToSymbols(x), ToSymbols(tail));
  }

  lemma Regroup(a: seq<byte>, b: seq<byte>, c: seq<byte>, d: seq<byte>)
    ensures a + (b + c + d) == (a + b) + c + d
  {
  }

  lemma SeparatorStays(head: string, x: string, y: string, tail: string)
    requires WellShaped(head + x + tail) && LastOne(head + x + tail) < |head| && IsData(y)
    ensures LastOne(head + y + tail) == LastOne(head + x + tail)
  {
    hide CharsetRev, IsData, Printable, HasLower, HasUpper;
    var s, t := head + x + tail, head + y + tail;
    var sep := LastOne(s);
    DataParts(s, head, x, tail);
    DataHasNoOne(y);
    DataHasNoOne(tail);
    assert t[sep] == head[sep] == s[sep];
    forall j | sep < j < |t| ensures t[j] != '1' {
      if j < |head| {
        assert s[j] == head[j] == t[j];
      } else if j < |head| + |y| {
        assert t[j] == y[j - |head|];
      } else {
        assert t[j] == tail[j - |head| - |y|];
      }
    }
  }

  lemma DataHasNoOne(s: string)
    requires IsData(s)
    ensures forall i :: 0 <= i < |s| ==> s[i] != '1'
  {
  }
}
