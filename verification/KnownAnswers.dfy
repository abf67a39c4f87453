/** Fixed points of the text formats: the constants and tables of their standards, met at known texts. */
module KnownAnswers {
  import opened Bytes
  import opened Bech32Checksum
  import opened Bech32
  import opened Radix
  import Base58
  import BitGroups
  import Segwit

  // ----- Bech32 and Bech32m (BIP-173, BIP-350) -----

  lemma Start(vs: seq<byte>, c: word)
    ensures Absorb(c, vs[..0]) == c
  {
  }

  /** One register step at known values. */
  lemma Moves(vs: seq<byte>, k: nat, start: word, c: word, v: word, d: word)
    requires k < |vs| && Absorb(start, vs[..k]) == c && vs[k] < 32 && vs[k] as word == v && Flat(c, v) == d
    ensures Absorb(start, vs[..k + 1]) == d
  {
    hide Step, Flat, Absorb;
    StepFlat(c, v);
    AbsorbNext(start, vs[..k], vs[k]);
    assert vs[..k + 1] == vs[..k] + [vs[k]];
  }

  /** A lower-case data part and the symbols it stands for. */
  predicate Spells(t: string, vs: seq<byte>) { IsData(t) && ToSymbols(t) == vs && Lower(t) == t }

  predicate SpelledAt(t: string, vs: seq<byte>, i: nat) {
    i < |t| && i < |vs| && SymbolOf(t[i]) == vs[i] && !IsUpper(t[i])
  }

  lemma SpellsIs(t: string, vs: seq<byte>)
    requires |t| == |vs| && forall i :: 0 <= i < |t| ==> SpelledAt(t, vs, i)
    ensures Spells(t, vs)
  {
    hide SymbolOf;
    forall i | 0 <= i < |t| ensures CharsetRev(t[i]) == vs[i] && LowerChar(t[i]) == t[i] { assert SpelledAt(t, vs, i); }
  }

  lemma SpellsConcat(t: string, u: string, vs: seq<byte>, ws: seq<byte>)
    requires Spells(t, vs) && Spells(u, ws)
    ensures Spells(t + u, vs + ws)
  {
    hide CharsetRev;
    ToSymbolsConcat(t, u);
    assert forall i :: 0 <= i < |t| ==> t[i] == Lower(t)[i];
    assert forall i :: 0 <= i < |u| ==> u[i] == Lower(u)[i];
  }

  /** A data part that brings the register to the target is the one encode writes. */
  lemma EncodesAs(hrp: string, values: seq<byte>, six: seq<byte>, variant: Variant, t: string)
    requires ValidHrp(hrp) && IsSymbols(values) && IsSymbols(six) && |six| == 6 && |hrp| + |values| + 7 <= 90
    requires Spells(t, values + six) && Absorb(1, HrpExpand(hrp) + (values + six)) == Target(variant)
    ensures Encode(hrp, values, variant) == Ok(hrp + "1" + t)
  {
    hide Absorb, HrpExpand, Target, CharsetRev, ToChars;
    RegisterOfJoin(hrp, values, six, variant);
    LowerOfData(t);
  }

  lemma PrefixASteps()
    ensures Flat(0x1, 3) == 0x23
    ensures Flat(0x23, 0) == 0x460
    ensures Flat(0x460, 1) == 0x8c01
  {
  }

  lemma PrefixA()
    ensures Absorb(0x1, [3, 0, 1]) == 0x8c01
  {
    hide Absorb, Step, IsSymbols, Flat;
    PrefixASteps();
    var vs: seq<byte> := [3, 0, 1];
    Start(vs, 0x1);
    Moves(vs, 0, 0x1, 0x1, 3, 0x23);
    Moves(vs, 1, 0x1, 0x23, 0, 0x460);
    Moves(vs, 2, 0x1, 0x460, 1, 0x8c01);
    assert vs[..3] == vs;
  }

  lemma ClassicASteps()
    ensures Flat(0x8c01, 10) == 0x11802a
    ensures Flat(0x11802a, 28) == 0x230055c
    ensures Flat(0x230055c, 25) == 0x3d6afc2b
    ensures Flat(0x3d6afc2b, 31) == 0x2f84386
    ensures Flat(0x2f84386, 20) == 0x24622766
    ensures Flat(0x24622766, 31) == 0x1
  {
  }

  lemma ClassicA()
    ensures Absorb(0x8c01, [10, 28, 25, 31, 20, 31]) == 0x1
  {
    hide Absorb, Step, IsSymbols, Flat;
    ClassicASteps();
    var vs: seq<byte> := [10, 28, 25, 31, 20, 31];
    Start(vs, 0x8c01);
    Moves(vs, 0, 0x8c01, 0x8c01, 10, 0x11802a);
    Moves(vs, 1, 0x8c01, 0x11802a, 28, 0x230055c);
    Moves(vs, 2, 0x8c01, 0x230055c, 25, 0x3d6afc2b);
    Moves(vs, 3, 0x8c01, 0x3d6afc2b, 31, 0x2f84386);
    Moves(vs, 4, 0x8c01, 0x2f84386, 20, 0x24622766);
    Moves(vs, 5, 0x8c01, 0x24622766, 31, 0x1);
    assert vs[..6] == vs;
  }

  lemma ClassicAText()
    ensures Spells("2uel5l", [10, 28, 25, 31, 20, 31])
  {
    var t, vs: seq<byte> := "2uel5l", [10, 28, 25, 31, 20, 31];
    assert SpelledAt(t, vs, 0);
    assert SpelledAt(t, vs, 1);
    assert SpelledAt(t, vs, 2);
    assert SpelledAt(t, vs, 3);
    assert SpelledAt(t, vs, 4);
    assert SpelledAt(t, vs, 5);
    hide SpelledAt, Spells;
    SpellsIs(t, vs);
  }

  lemma ModifiedASteps()
    ensures Flat(0x8c01, 31) == 0x11803f
    ensures Flat(0x11803f, 0) == 0x23007e0
    ensures Flat(0x23007e0, 9) == 0x3d6aabbb
    ensures Flat(0x3d6aabbb, 19) == 0x2f2b18a
    ensures Flat(0x2f2b18a, 17) == 0x253c66e3
    ensures Flat(0x253c66e3, 29) == 0x2bc830a3
  {
  }

  lemma ModifiedA()
    ensures Absorb(0x8c01, [31, 0, 9, 19, 17, 29]) == 0x2bc830a3
  {
    hide Absorb, Step, IsSymbols, Flat;
    ModifiedASteps();
    var vs: seq<byte> := [31, 0, 9, 19, 17, 29];
    Start(vs, 0x8c01);
    Moves(vs, 0, 0x8c01, 0x8c01, 31, 0x11803f);
    Moves(vs, 1, 0x8c01, 0x11803f, 0, 0x23007e0);
    Moves(vs, 2, 0x8c01, 0x23007e0, 9, 0x3d6aabbb);
    Moves(vs, 3, 0x8c01, 0x3d6aabbb, 19, 0x2f2b18a);
    Moves(vs, 4, 0x8c01, 0x2f2b18a, 17, 0x253c66e3);
    Moves(vs, 5, 0x8c01, 0x253c66e3, 29, 0x2bc830a3);
    assert vs[..6] == vs;
  }

  lemma ModifiedAText()
    ensures Spells("lqfn3a", [31, 0, 9, 19, 17, 29])
  {
    var t, vs: seq<byte> := "lqfn3a", [31, 0, 9, 19, 17, 29];
    assert SpelledAt(t, vs, 0);
    assert SpelledAt(t, vs, 1);
    assert SpelledAt(t, vs, 2);
    assert SpelledAt(t, vs, 3);
    assert SpelledAt(t, vs, 4);
    assert SpelledAt(t, vs, 5);
    hide SpelledAt, Spells;
    SpellsIs(t, vs);
  }

  lemma EmptyClassic()
    ensures Encode("a", [], Classic) == Ok("a12uel5l")
  {
    hide Absorb, Spells, Encode, IsSymbols;
    PrefixA();
    ClassicA();
    ClassicAText();
    ExpandA();
    var none, six: seq<byte> := [], [10, 28, 25, 31, 20, 31];
    AbsorbConcat(1, [3, 0, 1], six);
    assert none + six == six;
    EmptyAs(six, Classic, "2uel5l");
    assert "a" + "1" + "2uel5l" == "a12uel5l";
  }

  lemma EmptyModified()
    ensures Encode("a", [], Modified) == Ok("a1lqfn3a")
  {
    hide Absorb, Spells, Encode, IsSymbols;
    PrefixA();
    ModifiedA();
    ModifiedAText();
    ExpandA();
    var none, six: seq<byte> := [], [31, 0, 9, 19, 17, 29];
    AbsorbConcat(1, [3, 0, 1], six);
    assert none + six == six;
    EmptyAs(six, Modified, "lqfn3a");
    assert "a" + "1" + "lqfn3a" == "a1lqfn3a";
  }

  lemma EmptyAs(six: seq<byte>, variant: Variant, t: string)
    requires |six| == 6 && Spells(t, six) && Printable("a") && Absorb(1, HrpExpand("a") + six) == Target(variant)
    ensures Encode("a", [], variant) == Ok("a" + "1" + t)
  {
    hide Absorb, HrpExpand, Encode, Target;
    var none: seq<byte> := [];
    assert none + six == six;
    EncodesAs("a", none, six, variant, t);
  }

  /** The shortest texts of BIP-173 and BIP-350. */
  lemma EmptyData()
    ensures Encode("a", [], Classic) == Ok("a12uel5l")
    ensures Encode("a", [], Modified) == Ok("a1lqfn3a")
  {
    hide *;
    EmptyClassic();
    EmptyModified();
  }

  lemma ExpandA()
    ensures Printable("a") && HrpExpand("a") == [3, 0, 1]
  {
  }

  lemma PrefixBcSteps()
    ensures Flat(0x1, 3) == 0x23
    ensures Flat(0x23, 3) == 0x463
    ensures Flat(0x463, 0) == 0x8c60
    ensures Flat(0x8c60, 2) == 0x118c02
    ensures Flat(0x118c02, 3) == 0x2318043
  {
  }

  lemma PrefixBc()
    ensures Absorb(0x1, [3, 3, 0, 2, 3]) == 0x2318043
  {
    hide Absorb, Step, IsSymbols, Flat;
    PrefixBcSteps();
    var vs: seq<byte> := [3, 3, 0, 2, 3];
    Start(vs, 0x1);
    Moves(vs, 0, 0x1, 0x1, 3, 0x23);
    Moves(vs, 1, 0x1, 0x23, 3, 0x463);
    Moves(vs, 2, 0x1, 0x463, 0, 0x8c60);
    Moves(vs, 3, 0x1, 0x8c60, 2, 0x118c02);
    Moves(vs, 4, 0x1, 0x118c02, 3, 0x2318043);
    assert vs[..5] == vs;
  }

  lemma ProgramASteps()
    ensures Flat(0x2318043, 16) == 0x3d5a5fc2
    ensures Flat(0x3d5a5fc2, 14) == 0x4ec3eb7
    ensures Flat(0x4ec3eb7, 20) == 0x3bd75899
    ensures Flat(0x3bd75899, 15) == 0x8760c09
    ensures Flat(0x8760c09, 0) == 0x106098da
  {
  }

  lemma ProgramA()
    ensures Absorb(0x2318043, [16, 14, 20, 15, 0]) == 0x106098da
  {
    hide Absorb, Step, IsSymbols, Flat;
    ProgramASteps();
    var vs: seq<byte> := [16, 14, 20, 15, 0];
    Start(vs, 0x2318043);
    Moves(vs, 0, 0x2318043, 0x2318043, 16, 0x3d5a5fc2);
    Moves(vs, 1, 0x2318043, 0x3d5a5fc2, 14, 0x4ec3eb7);
    Moves(vs, 2, 0x2318043, 0x4ec3eb7, 20, 0x3bd75899);
    Moves(vs, 3, 0x2318043, 0x3bd75899, 15, 0x8760c09);
    Moves(vs, 4, 0x2318043, 0x8760c09, 0, 0x106098da);
    assert vs[..5] == vs;
  }

  lemma ProgramAText()
    ensures Spells("sw50q", [16, 14, 20, 15, 0])
  {
    var t, vs: seq<byte> := "sw50q", [16, 14, 20, 15, 0];
    assert SpelledAt(t, vs, 0);
    assert SpelledAt(t, vs, 1);
    assert SpelledAt(t, vs, 2);
    assert SpelledAt(t, vs, 3);
    assert SpelledAt(t, vs, 4);
    hide SpelledAt, Spells;
    SpellsIs(t, vs);
  }

  lemma ProgramBSteps()
    ensures Flat(0x106098da, 8) == 0x31512895
    ensures Flat(0x31512895, 13) == 0x3d7343c3
    ensures Flat(0x3d7343c3, 2) == 0x1cfbe9b
    ensures Flat(0x1cfbe9b, 10) == 0x39f7d36a
    ensures Flat(0x39f7d36a, 20) == 0x370d25c0
    ensures Flat(0x370d25c0, 18) == 0x2bc830a3
  {
  }

  lemma ProgramB()
    ensures Absorb(0x106098da, [8, 13, 2, 10, 20, 18]) == 0x2bc830a3
  {
    hide Absorb, Step, IsSymbols, Flat;
    ProgramBSteps();
    var vs: seq<byte> := [8, 13, 2, 10, 20, 18];
    Start(vs, 0x106098da);
    Moves(vs, 0, 0x106098da, 0x106098da, 8, 0x31512895);
    Moves(vs, 1, 0x106098da, 0x31512895, 13, 0x3d7343c3);
    Moves(vs, 2, 0x106098da, 0x3d7343c3, 2, 0x1cfbe9b);
    Moves(vs, 3, 0x106098da, 0x1cfbe9b, 10, 0x39f7d36a);
    Moves(vs, 4, 0x106098da, 0x39f7d36a, 20, 0x370d25c0);
    Moves(vs, 5, 0x106098da, 0x370d25c0, 18, 0x2bc830a3);
    assert vs[..6] == vs;
  }

  lemma ProgramBText()
    ensures Spells("gdz25j", [8, 13, 2, 10, 20, 18])
  {
    var t, vs: seq<byte> := "gdz25j", [8, 13, 2, 10, 20, 18];
    assert SpelledAt(t, vs, 0);
    assert SpelledAt(t, vs, 1);
    assert SpelledAt(t, vs, 2);
    assert SpelledAt(t, vs, 3);
    assert SpelledAt(t, vs, 4);
    assert SpelledAt(t, vs, 5);
    hide SpelledAt, Spells;
    SpellsIs(t, vs);
  }

  lemma ExpandBc()
    ensures Printable("bc") && HrpExpand("bc") == [3, 3, 0, 2, 3]
  {
  }

  /** The two bytes 75 1e in five-bit groups, four zero bits appended. */
  lemma GroupsOf751e()
    ensures BitGroups.Convert([0x75, 0x1e], 8, 5, true) == Some([14, 20, 15, 0])
  {
    var p, q: seq<byte> := [0x75, 0x1e], [14, 20, 15, 0];
    TwosAre();
    hide BitGroups.Convert, BitGroups.Two;
    NextDigit(p, 0, 256, 0, 0x75);
    NextDigit(p, 1, 256, 0x75, 0x751e);
    NextDigit(q, 0, 32, 0, 14);
    NextDigit(q, 1, 32, 14, 468);
    NextDigit(q, 2, 32, 468, 14991);
    NextDigit(q, 3, 32, 14991, 0x751e0);
    assert p[..2] == p && q[..4] == q;
    hide Value;
    assert BitGroups.Packs(p, 8, q, 5, 4);
    BitGroups.PaddedIsPacked(p, 8, q, 5);
  }

  lemma TwosAre()
    ensures BitGroups.Two(8) == 256 && BitGroups.Two(5) == 32 && BitGroups.Two(4) == 16
  {
  }

  lemma NextDigit(ds: seq<int>, k: nat, base: nat, v: int, w: int)
    requires k < |ds| && Value(ds[..k], base) == v && w == v * base + ds[k]
    ensures Value(ds[..k + 1], base) == w
  {
    assert ds[..k + 1][..k] == ds[..k];
  }

  /** The two-byte, version 16 address of BIP-350. */
  lemma ShortProgram()
    ensures Segwit.Encode("bc", 16, [0x75, 0x1e]) == Ok("bc1sw50qgdz25j")
  {
    hide Absorb, Spells, Encode, BitGroups.Convert;
    PrefixBc();
    ProgramA();
    ProgramB();
    ProgramAText();
    ProgramBText();
    ExpandBc();
    GroupsOf751e();
    var a, b: seq<byte> := [16, 14, 20, 15, 0], [8, 13, 2, 10, 20, 18];
    AbsorbConcat(1, [3, 3, 0, 2, 3], a + b);
    AbsorbConcat(0x2318043, a, b);
    SpellsConcat("sw50q", "gdz25j", a, b);
    EncodesAs("bc", a, b, Modified, "sw50q" + "gdz25j");
    assert [16] + [14, 20, 15, 0] == a;
    assert "bc" + "1" + ("sw50q" + "gdz25j") == "bc1sw50qgdz25j";
  }

  /** The table of BIP-173: the 32 symbols by value. */
  lemma CharsetTable(v: nat)
    requires v < 32
    ensures SymbolOf("qpzry9x8gf2tvdw0s3jn54khce6mua7l"[v]) == v && CHARSET[v] == "qpzry9x8gf2tvdw0s3jn54khce6mua7l"[v]
  {
    SymbolAt(v);
    hide SymbolOf, CHARSET;
    CharsetInverse(v, "qpzry9x8gf2tvdw0s3jn54khce6mua7l"[v]);
  }

  lemma SymbolAt(v: nat)
    requires v < 32
    ensures SymbolOf("qpzry9x8gf2tvdw0s3jn54khce6mua7l"[v]) == v
  {
  }

  // ----- Base58 -----

  lemma None58(data: seq<byte>, ds: seq<int>)
    ensures Value(data[..0], 256) == 0 && Value(ds[..0], 58) == 0
  {
  }

  /** Base-58 digits of the same value, after one '1' per leading zero byte. */
  lemma EncodesTo(data: seq<byte>, zeros: nat, ds: seq<int>)
    requires InBase(ds, 58) && (ds != [] ==> ds[0] != 0) && Value(ds, 58) == Value(data, 256)
    requires zeros <= |data| && (forall i :: 0 <= i < zeros ==> data[i] == 0) && (zeros < |data| ==> data[zeros] != 0)
    ensures Base58.Encode(data) == Repeat('1', zeros) + Base58.ToText(ds)
  {
    hide Value, Digits, Base58.ToText;
    DigitsOfValue(ds, 58);
    Base58.LeadingCountIs(data, 0, zeros);
  }

  /** One byte, two digits: the most significant first. */
  lemma OneByte()
    ensures Base58.Encode([0x61]) == "2g"
  {
    hide Base58.Encode, Base58.ALPHABET;
    var data: seq<byte>, ds: seq<int> := [0x61], [1, 39];
    None58(data, ds);
    NextDigit(data, 0, 256, 0, 97);
    NextDigit(ds, 0, 58, 0, 1);
    NextDigit(ds, 1, 58, 1, 97);
    assert data[..1] == data && ds[..2] == ds;
    EncodesTo(data, 0, ds);
    Base58.AlphabetInverse(0, '2');
    Base58.AlphabetInverse(0, 'g');
    assert Base58.ToText(ds) == "2g";
    assert Repeat('1', 0) + "2g" == "2g";
  }

  /** Leading zero bytes are leading ones. */
  lemma LeadingZeros()
    ensures Base58.Encode([0x0, 0x0, 0x28, 0x7f, 0xb4, 0xcd]) == "11233QC4"
  {
    hide Base58.Encode, Base58.ALPHABET;
    var data: seq<byte>, ds: seq<int> := [0x0, 0x0, 0x28, 0x7f, 0xb4, 0xcd], [1, 2, 2, 23, 11, 3];
    None58(data, ds);
    NextDigit(data, 0, 256, 0, 0);
    NextDigit(data, 1, 256, 0, 0);
    NextDigit(data, 2, 256, 0, 40);
    NextDigit(data, 3, 256, 40, 10367);
    NextDigit(data, 4, 256, 10367, 2654132);
    NextDigit(data, 5, 256, 2654132, 679457997);
    NextDigit(ds, 0, 58, 0, 1);
    NextDigit(ds, 1, 58, 1, 60);
    NextDigit(ds, 2, 58, 60, 3482);
    NextDigit(ds, 3, 58, 3482, 201979);
    NextDigit(ds, 4, 58, 201979, 11714793);
    NextDigit(ds, 5, 58, 11714793, 679457997);
    assert data[..6] == data && ds[..6] == ds;
    EncodesTo(data, 2, ds);
    Base58.AlphabetInverse(0, '2');
    Base58.AlphabetInverse(0, '3');
    Base58.AlphabetInverse(0, 'Q');
    Base58.AlphabetInverse(0, 'C');
    Base58.AlphabetInverse(0, '4');
    assert Base58.ToText(ds) == "233QC4";
    assert Repeat('1', 2) + "233QC4" == "11233QC4";
  }
}
