/** Segregated-witness addresses: a version and a program in a Bech32 or Bech32m string. */
module Segwit {
  import opened Bytes
  import BitGroups
  import Bech32
  import Bech32Checksum

  datatype Address = Address(hrp: string, version: int, program: seq<byte>)

  predicate ProgramFits(version: int, program: seq<byte>) {
    2 <= |program| <= 40 && (version == 0 ==> |program| == 20 || |program| == 32)
  }

  function VariantFor(version: int): Bech32.Variant {
    if version == 0 then Bech32.Classic else Bech32.Modified
  }

  function Encode(hrp: string, version: int, program: seq<byte>): Result<string> {
    if version < 0 || version > 16 then Err("invalid witness version")
    else if !ProgramFits(version, program) then Err("invalid witness program")
    else
      match BitGroups.Convert(program, 8, 5, true)
      case None => Err("invalid witness program")
      case Some(groups) => Bech32.Encode(hrp, [version] + groups, VariantFor(version))
  }

  function Decode(text: string): Option<Address> {
    match Bech32.Decode(text)
    case None => None
    case Some(d) =>
      if d.values == [] || d.values[0] > 16 then None
      else
        match BitGroups.Convert(d.values[1..], 5, 8, false)
        case None => None
        case Some(program) =>
          if ProgramFits(d.values[0], program) && d.variant == VariantFor(d.values[0])
          then Some(Address(d.hrp, d.values[0], program))
          else None
  }

  lemma Widths()
    ensures BitGroups.Two(5) == 32 && BitGroups.Two(8) == 256
  {
  }

  /** Every byte string has a five-bit spelling. */
  lemma ProgramConverts(program: seq<byte>)
    ensures BitGroups.Convert(program, 8, 5, true).Some?
    ensures var groups := BitGroups.Convert(program, 8, 5, true).value;
      Bech32Checksum.IsSymbols(groups) && |groups| * 5 < |program| * 8 + 5
  {
    Widths();
    hide BitGroups.Convert, BitGroups.Two;
    var r := BitGroups.PaddedPacks(program, 8, 5);
  }

  /**
   * Canonical form: a lower-case string decodes to a triple exactly when it is that triple's
   * encoding, so decoding inverts encoding and no triple has two lower-case spellings.
   */
  lemma Canonical(text: string, a: Address)
    ensures Decode(text) == Some(a) && text == Bech32.Lower(text) <==> Encode(a.hrp, a.version, a.program) == Ok(text)
  {
    if Decode(text) == Some(a) {
      EncodeDecode(text);
    }
    if Encode(a.hrp, a.version, a.program) == Ok(text) {
      DecodeEncode(a, text);
    }
  }

  lemma DecodeEncode(a: Address, text: string)
    requires Encode(a.hrp, a.version, a.program) == Ok(text)
    ensures Decode(text) == Some(a) && text == Bech32.Lower(text)
  {
    hide BitGroups.Convert, Bech32.Encode, Bech32.Decode;
    var groups := BitGroups.Convert(a.program, 8, 5, true).value;
    BitGroups.RoundTrip(a.program, groups, 8, 5);
    var values: seq<byte> := [a.version] + groups;
    assert values[1..] == groups;
    Bech32.DecodeEncode(a.hrp, values, VariantFor(a.version));
    Bech32.EncodeDecode(text);
  }

  /** An accepted string, whatever its case, re-encodes to its lower-case form. */
  lemma EncodeDecode(text: string)
    requires Decode(text).Some?
    ensures var a := Decode(text).value; Encode(a.hrp, a.version, a.program) == Ok(Bech32.Lower(text))
  {
    hide BitGroups.Convert, Bech32.Encode, Bech32.Decode;
    var d, a := Bech32.Decode(text).value, Decode(text).value;
    BitGroups.RoundTrip(a.program, d.values[1..], 8, 5);
    assert d.values == [a.version] + d.values[1..];
    Bech32.EncodeDecode(text);
  }

  /** Encode accepts the prefixes Bech32 accepts, versions 0 to 16, and programs of the BIP-141 sizes that fit. */
  lemma EncodeOkIff(hrp: string, version: int, program: seq<byte>)
    ensures Encode(hrp, version, program).Ok? <==>
      && 0 <= version <= 16 && 2 <= |program| <= 40 && (version != 0 || |program| == 20 || |program| == 32)
      && 1 <= |hrp| && (forall i :: 0 <= i < |hrp| ==> Bech32.PlainPrefix(hrp[i]))
      && |hrp| + (|program| * 8 + 4) / 5 <= 82
  {
    hide BitGroups.Convert, Bech32.Encode, Bech32.PlainPrefix;
    if 0 <= version <= 16 && ProgramFits(version, program) {
      ProgramConverts(program);
      GroupCount(program);
      var groups := BitGroups.Convert(program, 8, 5, true).value;
      Bech32.EncodeOkIff(hrp, [version] + groups, VariantFor(version));
    }
  }

  lemma GroupCount(program: seq<byte>)
    ensures BitGroups.Convert(program, 8, 5, true).Some?
    ensures |BitGroups.Convert(program, 8, 5, true).value| == (|program| * 8 + 4) / 5
  {
    Widths();
    hide BitGroups.Convert, BitGroups.Two;
    var r := BitGroups.PaddedPacks(program, 8, 5);
  }

  /** The string under an address starts with the version symbol and uses the old checksum for version 0 alone. */
  lemma EncodedParts(hrp: string, version: int, program: seq<byte>)
    requires Encode(hrp, version, program).Ok?
    ensures Bech32.Decode(Encode(hrp, version, program).value).Some?
    ensures var d := Bech32.Decode(Encode(hrp, version, program).value).value;
      d.hrp == hrp && |d.values| > 0 && d.values[0] == version && (d.variant == Bech32.Classic <==> version == 0)
  {
    hide BitGroups.Convert, Bech32.Encode, Bech32.Decode;
    var groups := BitGroups.Convert(program, 8, 5, true).value;
    Bech32.DecodeEncode(hrp, [version] + groups, VariantFor(version));
  }

  /** A text decodes to an address exactly when it is in one case and its lower-case form encodes it. */
  lemma AcceptedIff(text: string, a: Address)
    ensures Decode(text) == Some(a) <==>
      !(Bech32.HasLower(text) && Bech32.HasUpper(text)) && Encode(a.hrp, a.version, a.program) == Ok(Bech32.Lower(text))
  {
    hide Encode, Bech32.Decode, BitGroups.Convert, Bech32.HasLower, Bech32.HasUpper;
    Bech32.Caseless(text);
    Bech32.LowerCase(text);
    Canonical(Bech32.Lower(text), a);
    if Decode(text) == Some(a) {
      EncodeDecode(text);
    }
  }

  /**
   * Replacing at most six consecutive characters after the version character of an accepted
   * address by other symbols always makes decoding fail, in either letter case.
   */
  lemma BurstRejected(head: string, x: string, y: string, tail: string)
    requires Decode(head + x + tail).Some? && Bech32.LastOne(head + x + tail) + 1 < |head|
    requires |y| == |x| <= 6 && Bech32.IsData(x) && Bech32.IsData(y) && Bech32.ToSymbols(y) != Bech32.ToSymbols(x)
    ensures Decode(head + y + tail).None?
  {
    hide BitGroups.Convert, Bech32.Decode, Bech32.IsData, Bech32.ToSymbols, Bech32.CharsetRev, Bech32.LastOne;
    Bech32.BurstDetected(head, x, y, tail);
    if Bech32.Decode(head + y + tail).Some? {
      VersionSymbol(head, x, tail);
      VersionSymbol(head, y, tail);
    }
  }

  /** The version symbol is the character right after the separator. */
  lemma VersionSymbol(head: string, x: string, tail: string)
    requires Bech32.Decode(head + x + tail).Some? && Bech32.LastOne(head + x + tail) + 1 < |head|
    ensures var d := Bech32.Decode(head + x + tail).value;
      d.values != [] ==> d.values[0] == Bech32.CharsetRev(head[Bech32.LastOne(head + x + tail) + 1])
  {
    hide Bech32.CharsetRev, Bech32.Register;
  }
}
