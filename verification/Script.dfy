/** Standard output scripts and the mainnet addresses that stand for them. */
module Script {
  import opened Bytes
  import Base58
  import Bech32
  import Segwit

  const OP_0: byte := 0x00
  const OP_1: byte := 0x51
  const OP_DUP: byte := 0x76
  const OP_EQUAL: byte := 0x87
  const OP_EQUALVERIFY: byte := 0x88
  const OP_HASH160: byte := 0xa9
  const OP_CHECKSIG: byte := 0xac

  const P2PKH_VERSION: byte := 0x00
  const P2SH_VERSION: byte := 0x05

  predicate IsP2pkh(s: seq<byte>) {
    |s| == 25 && s[0] == OP_DUP && s[1] == OP_HASH160 && s[2] == 20 && s[23] == OP_EQUALVERIFY && s[24] == OP_CHECKSIG
  }

  predicate IsP2sh(s: seq<byte>) { |s| == 23 && s[0] == OP_HASH160 && s[1] == 20 && s[22] == OP_EQUAL }

  predicate IsP2wpkh(s: seq<byte>) { |s| == 22 && s[0] == OP_0 && s[1] == 20 }

  predicate IsP2wsh(s: seq<byte>) { |s| == 34 && s[0] == OP_0 && s[1] == 32 }

  predicate IsP2tr(s: seq<byte>) { |s| == 34 && s[0] == OP_1 && s[1] == 32 }

  predicate IsP2pkCompressed(s: seq<byte>) {
    |s| == 35 && s[0] == 33 && s[34] == OP_CHECKSIG && (s[1] == 0x02 || s[1] == 0x03)
  }

  predicate IsP2pkUncompressed(s: seq<byte>) { |s| == 67 && s[0] == 65 && s[66] == OP_CHECKSIG && s[1] == 0x04 }

  function Base58Address(hash256: Hasher, version: byte, h: Hash160): string {
    Base58.CheckEncode(hash256, [version] + h)
  }

  function AddressFromScript(hash256: Hasher, hash160: Hasher160, s: seq<byte>): Result<Option<string>> {
    if IsP2pkh(s) then Ok(Some(Base58Address(hash256, P2PKH_VERSION, s[3..23])))
    else if IsP2sh(s) then Ok(Some(Base58Address(hash256, P2SH_VERSION, s[2..22])))
    else if IsP2wpkh(s) then Found(Segwit.Encode("bc", 0, s[2..]))
    else if IsP2wsh(s) then Found(Segwit.Encode("bc", 0, s[2..]))
    else if IsP2tr(s) then Found(Segwit.Encode("bc", 1, s[2..]))
    else if IsP2pkCompressed(s) then Ok(Some(Base58Address(hash256, P2PKH_VERSION, hash160(s[1..34]))))
    else if IsP2pkUncompressed(s) then Ok(Some(Base58Address(hash256, P2PKH_VERSION, hash160(s[1..66]))))
    else Ok(None)
  }

  function Found(r: Result<string>): Result<Option<string>> {
    match r
    case Ok(a) => Ok(Some(a))
    case Err(m) => Err(m)
  }

  function P2pkhScript(h: seq<byte>): seq<byte> {
    [OP_DUP, OP_HASH160, 20] + h + [OP_EQUALVERIFY, OP_CHECKSIG]
  }

  function P2shScript(h: seq<byte>): seq<byte> { [OP_HASH160, 20] + h + [OP_EQUAL] }

  function ScriptFromAddress(hash256: Hasher, addr: string): Option<seq<byte>> {
    if addr == "" then None
    else
      match Segwit.Decode(addr)
      case Some(a) =>
        if a.hrp != "bc" then None
        else if a.version == 0 && |a.program| == 20 then Some([OP_0, 20] + a.program)
        else if a.version == 0 && |a.program| == 32 then Some([OP_0, 32] + a.program)
        else if a.version == 1 && |a.program| == 32 then Some([OP_1, 32] + a.program)
        else None
      case None => ScriptFromBase58(hash256, addr)
  }

  function ScriptFromBase58(hash256: Hasher, addr: string): Option<seq<byte>> {
    match Base58.CheckDecode(hash256, addr)
    case Err(_) => None
    case Ok(payload) =>
      if |payload| != 21 then None
      else if payload[0] == P2PKH_VERSION then Some(P2pkhScript(payload[1..]))
      else if payload[0] == P2SH_VERSION then Some(P2shScript(payload[1..]))
      else None
  }

  predicate IsWitnessScript(s: seq<byte>) { IsP2wpkh(s) || IsP2wsh(s) || IsP2tr(s) }

  /** The two witness program sizes always fit a Bech32 string, so the exception is never thrown. */
  lemma WitnessAddressExists(version: int, program: seq<byte>)
    requires 0 <= version <= 1 && (|program| == 32 || (version == 0 && |program| == 20))
    ensures Segwit.Encode("bc", version, program).Ok?
  {
    Segwit.ProgramConverts(program);
  }

  lemma AddressNeverThrows(hash256: Hasher, hash160: Hasher160, s: seq<byte>)
    ensures AddressFromScript(hash256, hash160, s).Ok?
  {
    hide Segwit.Encode;
    if IsWitnessScript(s) {
      WitnessAddressExists(if s[0] == OP_1 then 1 else 0, s[2..]);
    }
  }

  /** Every P2WPKH, P2WSH and P2TR script comes back from its address. */
  lemma WitnessRoundTrip(hash256: Hasher, hash160: Hasher160, s: seq<byte>)
    requires IsWitnessScript(s)
    ensures AddressFromScript(hash256, hash160, s).Ok? && AddressFromScript(hash256, hash160, s).value.Some?
    ensures ScriptFromAddress(hash256, AddressFromScript(hash256, hash160, s).value.value) == Some(s)
  {
    hide Segwit.Encode, Segwit.Decode, Bech32.Lower;
    AddressNeverThrows(hash256, hash160, s);
    var version := if s[0] == OP_1 then 1 else 0;
    var addr := Segwit.Encode("bc", version, s[2..]).value;
    Segwit.Canonical(addr, Segwit.Address("bc", version, s[2..]));
    AddressNotEmpty(addr);
    assert s == [s[0], s[1]] + s[2..];
  }

  lemma AddressNotEmpty(addr: string)
    ensures Segwit.Decode(addr).Some? ==> addr != ""
  {
  }

  /** A P2PKH or P2SH script comes back exactly when its address does not also read as a witness address. */
  lemma HashRoundTrip(hash256: Hasher, hash160: Hasher160, s: seq<byte>)
    requires IsP2pkh(s) || IsP2sh(s)
    ensures AddressFromScript(hash256, hash160, s).Ok? && AddressFromScript(hash256, hash160, s).value.Some?
    ensures var addr := AddressFromScript(hash256, hash160, s).value.value;
      ScriptFromAddress(hash256, addr) == Some(s) <==> Segwit.Decode(addr).None?
  {
    hide Segwit.Decode, Base58.CheckEncode, Base58.CheckDecode;
    var addr := AddressFromScript(hash256, hash160, s).value.value;
    var payload := if IsP2pkh(s) then [P2PKH_VERSION] + s[3..23] else [P2SH_VERSION] + s[2..22];
    Base58.CheckCanonical(hash256, payload, addr);
    CheckedTextNotEmpty(hash256, payload);
    if IsP2pkh(s) {
      assert s == P2pkhScript(s[3..23]) && payload[1..] == s[3..23];
    } else {
      assert s == P2shScript(s[2..22]) && payload[1..] == s[2..22];
    }
  }

  lemma CheckedTextNotEmpty(hash256: Hasher, payload: seq<byte>)
    ensures Base58.CheckEncode(hash256, payload) != ""
  {
    hide Base58.Encode, Base58.Decode;
    Base58.DecodeEncode(payload + hash256(payload)[..4]);
    Base58.DecodeEncode([]);
    Base58.EmptyText();
  }

  /** An accepted address is the address of its script, up to the letter case of a witness address. */
  lemma AddressOfScript(hash256: Hasher, hash160: Hasher160, addr: string)
    requires ScriptFromAddress(hash256, addr).Some?
    ensures AddressFromScript(hash256, hash160, ScriptFromAddress(hash256, addr).value)
         == Ok(Some(if Segwit.Decode(addr).Some? then Bech32.Lower(addr) else addr))
  {
    hide Segwit.Encode, Segwit.Decode, Base58.CheckEncode, Base58.CheckDecode, Bech32.Lower;
    var s := ScriptFromAddress(hash256, addr).value;
    if Segwit.Decode(addr).Some? {
      Segwit.EncodeDecode(addr);
      assert s[2..] == Segwit.Decode(addr).value.program;
    } else {
      var payload := Base58.CheckDecode(hash256, addr).value;
      Base58.CheckCanonical(hash256, payload, addr);
      assert payload == [payload[0]] + payload[1..];
      if payload[0] == P2PKH_VERSION {
        assert s[3..23] == payload[1..];
      } else {
        assert s[2..22] == payload[1..];
      }
    }
  }

  function DustSats(s: seq<byte>): uint64 {
    if |s| == 25 && s[0] == OP_DUP && s[1] == OP_HASH160 && s[2] == 20 then 546
    else if |s| == 23 && s[0] == OP_HASH160 && s[1] == 20 then 540
    else if IsP2wpkh(s) then 294
    else if IsP2wsh(s) || IsP2tr(s) then 330
    else 546
  }

  // ----- Which script means which address -----

  /** The seven forms, in bytes. */
  predicate HasForm(s: seq<byte>, n: nat, head: seq<byte>, tail: seq<byte>) {
    |s| == n && |head| + |tail| <= n && s[..|head|] == head && s[n - |tail|..] == tail
  }

  /** 76 a9 14 .. 88 ac: version byte 00 and the hash. a9 14 .. 87: version byte 05 and the hash. */
  lemma HashAddresses(hash256: Hasher, hash160: Hasher160, s: seq<byte>, a: string)
    requires AddressFromScript(hash256, hash160, s) == Ok(Some(a))
    ensures HasForm(s, 25, [0x76, 0xa9, 0x14], [0x88, 0xac]) ==> Base58.CheckDecode(hash256, a) == Ok([0x00] + s[3..23])
    ensures HasForm(s, 23, [0xa9, 0x14], [0x87]) ==> Base58.CheckDecode(hash256, a) == Ok([0x05] + s[2..22])
  {
    hide Base58.CheckEncode, Base58.CheckDecode, Segwit.Encode;
    if HasForm(s, 25, [0x76, 0xa9, 0x14], [0x88, 0xac]) {
      FormP2pkh(s);
      Base58.CheckCanonical(hash256, [0x00] + s[3..23], a);
    }
    if HasForm(s, 23, [0xa9, 0x14], [0x87]) {
      FormP2sh(s);
      Base58.CheckCanonical(hash256, [0x05] + s[2..22], a);
    }
  }

  lemma FormP2pkh(s: seq<byte>)
    ensures HasForm(s, 25, [0x76, 0xa9, 0x14], [0x88, 0xac]) <==> IsP2pkh(s)
  {
    if |s| == 25 {
      assert s[..3] == [s[0], s[1], s[2]] && s[23..] == [s[23], s[24]];
    }
  }

  lemma FormP2sh(s: seq<byte>)
    ensures HasForm(s, 23, [0xa9, 0x14], [0x87]) <==> IsP2sh(s)
  {
    if |s| == 23 {
      assert s[..2] == [s[0], s[1]] && s[22..] == [s[22]];
    }
  }

  /** 00 14 .., 00 20 .. and 51 20 .. are the witness programs of versions 0 and 1 on main network. */
  lemma WitnessAddresses(hash256: Hasher, hash160: Hasher160, s: seq<byte>, a: string)
    requires AddressFromScript(hash256, hash160, s) == Ok(Some(a))
    ensures HasForm(s, 22, [0x00, 0x14], []) || HasForm(s, 34, [0x00, 0x20], []) ==>
      Segwit.Decode(a) == Some(Segwit.Address("bc", 0, s[2..]))
    ensures HasForm(s, 34, [0x51, 0x20], []) ==> Segwit.Decode(a) == Some(Segwit.Address("bc", 1, s[2..]))
  {
    hide Base58.CheckEncode, Segwit.Encode, Segwit.Decode, Bech32.Lower;
    FormWitness(s);
    Segwit.Canonical(a, Segwit.Address("bc", 0, if |s| >= 2 then s[2..] else []));
    Segwit.Canonical(a, Segwit.Address("bc", 1, if |s| >= 2 then s[2..] else []));
  }

  lemma FormWitness(s: seq<byte>)
    ensures HasForm(s, 22, [0x00, 0x14], []) <==> IsP2wpkh(s)
    ensures HasForm(s, 34, [0x00, 0x20], []) <==> IsP2wsh(s)
    ensures HasForm(s, 34, [0x51, 0x20], []) <==> IsP2tr(s)
  {
    if |s| >= 2 {
      assert s[..2] == [s[0], s[1]] && s[|s|..] == [];
    }
  }

  /** A bare public key, compressed or not, has the address of its hash160; nothing else has an address. */
  lemma KeyAddresses(hash256: Hasher, hash160: Hasher160, s: seq<byte>)
    ensures HasForm(s, 35, [0x21], [0xac]) && (s[1] == 2 || s[1] == 3) ==>
      AddressFromScript(hash256, hash160, s) == Ok(Some(Base58.CheckEncode(hash256, [0x00] + hash160(s[1..34]))))
    ensures HasForm(s, 67, [0x41, 0x04], [0xac]) ==>
      AddressFromScript(hash256, hash160, s) == Ok(Some(Base58.CheckEncode(hash256, [0x00] + hash160(s[1..66]))))
    ensures AddressFromScript(hash256, hash160, s) == Ok(None) <==>
      && !HasForm(s, 25, [0x76, 0xa9, 0x14], [0x88, 0xac]) && !HasForm(s, 23, [0xa9, 0x14], [0x87])
      && !HasForm(s, 22, [0x00, 0x14], []) && !HasForm(s, 34, [0x00, 0x20], []) && !HasForm(s, 34, [0x51, 0x20], [])
      && !(HasForm(s, 35, [0x21], [0xac]) && (s[1] == 2 || s[1] == 3)) && !HasForm(s, 67, [0x41, 0x04], [0xac])
  {
    hide Base58.CheckEncode, Segwit.Encode, HasForm;
    FormP2pkh(s);
    FormP2sh(s);
    FormWitness(s);
    FormKeys(s);
    AddressNeverThrows(hash256, hash160, s);
  }

  lemma FormKeys(s: seq<byte>)
    ensures HasForm(s, 35, [0x21], [0xac]) <==> |s| == 35 && s[0] == 33 && s[34] == 0xac
    ensures HasForm(s, 67, [0x41, 0x04], [0xac]) <==> IsP2pkUncompressed(s)
    ensures HasForm(s, 35, [0x21], [0xac]) && (s[1] == 2 || s[1] == 3) <==> IsP2pkCompressed(s)
  {
    if |s| == 35 {
      assert s[..1] == [s[0]] && s[34..] == [s[34]];
    }
    if |s| == 67 {
      assert s[..2] == [s[0], s[1]] && s[66..] == [s[66]];
    }
  }

  predicate HasOwnDustLimit(s: seq<byte>) {
    || HasForm(s, 23, [0xa9, 0x14], []) || HasForm(s, 22, [0x00, 0x14], [])
    || HasForm(s, 34, [0x00, 0x20], []) || HasForm(s, 34, [0x51, 0x20], [])
  }

  /** The dust limits in satoshi; P2PKH shares the limit of unlisted scripts. */
  lemma DustTable(s: seq<byte>)
    ensures HasForm(s, 23, [0xa9, 0x14], []) ==> DustSats(s) == 540
    ensures HasForm(s, 22, [0x00, 0x14], []) ==> DustSats(s) == 294
    ensures HasForm(s, 34, [0x00, 0x20], []) || HasForm(s, 34, [0x51, 0x20], []) ==> DustSats(s) == 330
    ensures !HasOwnDustLimit(s) ==> DustSats(s) == 546
  {
    FormWitness(s);
    if |s| == 23 {
      assert s[..2] == [s[0], s[1]] && s[23..] == [];
    }
  }
}
