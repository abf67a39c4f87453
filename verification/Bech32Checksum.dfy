/** The Bech32 checksum: a 30-bit register that is linear over GF(2) (BIP-173, BIP-350). */
module Bech32Checksum {
  import opened Bytes

  // A 30-bit checksum register kept in 32 bits.
  type word = bv32

  const GEN: seq<word> := [0x3b6a57b2, 0x26508e6d, 0x1ea119fa, 0x3d4233dd, 0x2a1462b3]

  // The bit operators are named so that proofs can use their laws without looking inside.
  function Xor(a: word, b: word): word { a ^ b }

  function And(a: word, b: word): word { a & b }

  // 1 << i
  function Mask(i: nat): word {
    match i
    case 0 => 1
    case 1 => 2
    case 2 => 4
    case 3 => 8
    case _ => 16
  }

  /** Bit i of the five bits that left the register. */
  predicate Tap(b: word, i: nat)
    requires i < 5
  {
    And(b, Mask(i)) != 0
  }

  function Low(chk: word): word { (chk & 0x1ffffff) << 5 }

  function Top(chk: word): word { chk >> 25 }

  /** The register after the first i generators have been mixed in. */
  function Mixed(start: word, b: word, i: nat): word
    requires i <= 5
  {
    if i == 0 then start
    else
      var c := Mixed(start, b, i - 1);
      if Tap(b, i - 1) then Xor(c, GEN[i - 1]) else c
  }

  function Step(chk: word, v: word): word {
    Mixed(Xor(Low(chk), v), Top(chk), 5)
  }

  /** The register after absorbing a list of values. */
  function Absorb(chk: word, values: seq<byte>): word {
    if values == [] then chk
    else Step(Absorb(chk, values[..|values| - 1]), values[|values| - 1] as word)
  }

  method Polymod(values: seq<byte>) returns (chk: word)
    ensures chk == Absorb(1, values)
  {
    hide Step;
    chk := 1;
    for k := 0 to |values|
      invariant chk == Absorb(1, values[..k])
    {
      chk := MixGenerators(chk, values[k] as word);
      assert values[..k + 1][..k] == values[..k];
    }
    assert values[..|values|] == values;
  }

  /** The inner loop: shift the register, take the value in, mix one generator per bit shifted out. */
  method MixGenerators(chk: word, v: word) returns (next: word)
    ensures next == Step(chk, v)
  {
    hide Xor, Low, Top, Tap;
    var b := Top(chk);
    next := Xor(Low(chk), v);
    ghost var start := next;
    for i := 0 to 5
      invariant next == Mixed(start, b, i)
    {
      if Tap(b, i) {
        next := Xor(next, GEN[i]);
      }
    }
  }

  // ----- Linearity over GF(2) -----

  lemma XorComm(a: word, b: word)
    ensures Xor(a, b) == Xor(b, a)
  {
  }

  lemma XorAssoc(a: word, b: word, c: word)
    ensures Xor(Xor(a, b), c) == Xor(a, Xor(b, c))
  {
  }

  lemma XorZero(a: word)
    ensures Xor(a, a) == 0 && Xor(a, 0) == a && Xor(0, a) == a
  {
  }

  lemma XorCancel(a: word, b: word)
    ensures Xor(Xor(a, b), b) == a && (Xor(a, b) == 0 ==> a == b)
  {
    hide Xor;
    XorAssoc(a, b, b);
    XorZero(b);
    XorZero(a);
  }

  lemma XorExchange(a: word, b: word, c: word, d: word)
    ensures Xor(Xor(a, b), Xor(c, d)) == Xor(Xor(a, c), Xor(b, d))
  {
    hide Xor;
    XorAssoc(a, b, Xor(c, d));
    XorAssoc(b, c, d);
    XorComm(b, c);
    XorAssoc(c, b, d);
    XorAssoc(a, c, Xor(b, d));
  }

  lemma AndXor(a: word, b: word, m: word)
    ensures And(Xor(a, b), m) == Xor(And(a, m), And(b, m))
  {
  }

  lemma PartsXor(a: word, b: word)
    ensures Low(Xor(a, b)) == Xor(Low(a), Low(b))
    ensures Top(Xor(a, b)) == Xor(Top(a), Top(b))
  {
  }

  predicate IsMask(m: word) { m == 1 || m == 2 || m == 4 || m == 8 || m == 16 }

  lemma OneMask(a: word, m: word)
    requires IsMask(m)
    ensures And(a, m) == 0 || And(a, m) == m
  {
  }

  lemma MaskIs(i: nat)
    ensures IsMask(Mask(i)) && Mask(i) != 0
  {
  }

  lemma TapXor(a: word, b: word, i: nat)
    requires i < 5
    ensures Tap(Xor(a, b), i) <==> (Tap(a, i) <==> !Tap(b, i))
  {
    hide Xor, And, Mask, IsMask;
    MaskIs(i);
    OneMask(a, Mask(i));
    OneMask(b, Mask(i));
    AndXor(a, b, Mask(i));
    XorZero(Mask(i));
    XorZero(0);
  }

  lemma {:induction false} MixedXor(s: word, t: word, a: word, b: word, i: nat)
    requires i <= 5
    ensures Mixed(Xor(s, t), Xor(a, b), i) == Xor(Mixed(s, a, i), Mixed(t, b, i))
  {
    hide Xor, Tap;
    if i > 0 {
      MixedXor(s, t, a, b, i - 1);
      TapXor(a, b, i - 1);
      var m, n, g := Mixed(s, a, i - 1), Mixed(t, b, i - 1), GEN[i - 1];
      XorExchange(m, n, g, 0);
      XorExchange(m, n, 0, g);
      XorExchange(m, n, g, g);
      XorZero(g);
      XorZero(m);
      XorZero(n);
      XorZero(Xor(m, n));
    }
  }

  /** The checksum step is linear over GF(2) in register and input together. */
  lemma StepLinear(c: word, d: word, v: word, w: word)
    ensures Step(Xor(c, d), Xor(v, w)) == Xor(Step(c, v), Step(d, w))
  {
    hide Mixed, Xor, Low, Top;
    PartsXor(c, d);
    XorExchange(Low(c), Low(d), v, w);
    MixedXor(Xor(Low(c), v), Xor(Low(d), w), Top(c), Top(d), 5);
  }

  // ----- The step on 30-bit registers -----

  predicate Fits30(c: word) { c < 0x40000000 }

  function Pick(bit: word, g: word): word { if bit != 0 then g else 0 }

  /** The step with its loop unrolled. */
  function Flat(c: word, v: word): word {
    Xor(Xor(Xor(Xor(Xor(Xor(Low(c), v),
      Pick(c & 0x2000000, 0x3b6a57b2)), Pick(c & 0x4000000, 0x26508e6d)), Pick(c & 0x8000000, 0x1ea119fa)),
      Pick(c & 0x10000000, 0x3d4233dd)), Pick(c & 0x20000000, 0x2a1462b3))
  }

  lemma MixOne(start: word, b: word, i: nat, bit: word)
    requires i < 5 && (Tap(b, i) <==> bit != 0)
    ensures Mixed(start, b, 0) == start
    ensures Mixed(start, b, i + 1) == Xor(Mixed(start, b, i), Pick(bit, GEN[i]))
  {
    hide Xor, Tap;
    XorZero(Mixed(start, b, i));
  }

  lemma TapsOfTop(c: word)
    ensures Tap(Top(c), 0) <==> c & 0x2000000 != 0
    ensures Tap(Top(c), 1) <==> c & 0x4000000 != 0
    ensures Tap(Top(c), 2) <==> c & 0x8000000 != 0
    ensures Tap(Top(c), 3) <==> c & 0x10000000 != 0
    ensures Tap(Top(c), 4) <==> c & 0x20000000 != 0
  {
  }

  lemma StepFlat(c: word, v: word)
    ensures Step(c, v) == Flat(c, v)
  {
    hide Xor, Tap, Pick, Mixed, Low, Top;
    var start, b := Xor(Low(c), v), Top(c);
    TapsOfTop(c);
    MixOne(start, b, 0, c & 0x2000000);
    MixOne(start, b, 1, c & 0x4000000);
    MixOne(start, b, 2, c & 0x8000000);
    MixOne(start, b, 3, c & 0x10000000);
    MixOne(start, b, 4, c & 0x20000000);
  }

  lemma XorFits(c: word, d: word)
    requires Fits30(c) && Fits30(d)
    ensures Fits30(Xor(c, d))
  {
  }

  lemma PartsFit(c: word, v: word)
    ensures Fits30(Low(c)) && (v < 32 ==> Fits30(v))
  {
  }

  lemma PickFits(a: word, b: word)
    requires Fits30(a) && Fits30(b)
    ensures forall bit :: Fits30(Xor(a, Pick(bit, b)))
  {
    hide Fits30, Xor;
    XorFits(a, b);
    XorZero(a);
  }

  lemma StepFits(c: word, v: word)
    requires Fits30(c) && v < 32
    ensures Fits30(Step(c, v))
  {
    StepFlat(c, v);
    PartsFit(c, v);
    assert forall g :: g in GEN ==> Fits30(g);
    hide Fits30, Xor, Pick, Step, Low;
    XorFits(Low(c), v);
    var r0 := Xor(Low(c), v);
    PickFits(r0, 0x3b6a57b2);
    var r1 := Xor(r0, Pick(c & 0x2000000, 0x3b6a57b2));
    PickFits(r1, 0x26508e6d);
    var r2 := Xor(r1, Pick(c & 0x4000000, 0x26508e6d));
    PickFits(r2, 0x1ea119fa);
    var r3 := Xor(r2, Pick(c & 0x8000000, 0x1ea119fa));
    PickFits(r3, 0x3d4233dd);
    var r4 := Xor(r3, Pick(c & 0x10000000, 0x3d4233dd));
    PickFits(r4, 0x2a1462b3);
  }

  lemma StepKernel(c: word)
    requires Fits30(c) && Step(c, 0) == 0
    ensures c == 0
  {
    hide Step;
    StepFlat(c, 0);
  }

  /** Equal inputs keep different registers different. */
  lemma StepInjective(c: word, d: word, v: word)
    requires Fits30(c) && Fits30(d) && Step(c, v) == Step(d, v)
    ensures c == d
  {
    hide Step, Xor;
    StepLinear(c, d, v, v);
    XorZero(v);
    XorZero(Step(c, v));
    XorFits(c, d);
    StepKernel(Xor(c, d));
    XorCancel(c, d);
  }

  // ----- Six symbols and the 30-bit register they spell -----

  predicate IsSymbols(vs: seq<byte>) { forall i :: 0 <= i < |vs| ==> vs[i] < 32 }

  predicate Below(m: word, n: nat) { m < Limit(n) }

  function Shl5(c: word): word { c << 5 }

  function Shr5(c: word): word { c >> 5 }

  function Last(c: word): word { c & 31 }

  /** The n low-order five-bit groups of a register, highest first. */
  function Symbols(m: word, n: nat): (vs: seq<byte>)
    ensures |vs| == n && IsSymbols(vs)
    decreases n
  {
    if n == 0 then [] else
      LastRange(m);
      SymbolRange(Last(m));
      Symbols(Shr5(m), n - 1) + [Last(m) as int]
  }

  lemma LastRange(x: word)
    ensures Last(x) < 32
  {
  }

  lemma SymbolRange(x: word)
    requires x < 32
    ensures 0 <= x as int < 32 && (x as int) as word == x
  {
  }

  lemma SymbolWord(v: byte)
    requires v < 32
    ensures (v as word) < 32 && (v as word) as int == v
  {
  }

  /** 2^(5n) */
  function Limit(n: nat): word {
    match n
    case 0 => 0x1
    case 1 => 0x20
    case 2 => 0x400
    case 3 => 0x8000
    case 4 => 0x100000
    case 5 => 0x2000000
    case _ => 0x40000000
  }

  lemma ShrLimit(x: word, n: nat)
    requires n < 6
    ensures Below(Shr5(x), n) <==> Below(x, n + 1)
  {
    if n == 0 {} else if n == 1 {} else if n == 2 {} else if n == 3 {} else if n == 4 {} else {}
  }

  lemma SmallParts(c: word)
    requires c < 0x2000000
    ensures Low(c) == Shl5(c)
    ensures Pick(c & 0x2000000, 0x3b6a57b2) == 0 && Pick(c & 0x4000000, 0x26508e6d) == 0
    ensures Pick(c & 0x8000000, 0x1ea119fa) == 0 && Pick(c & 0x10000000, 0x3d4233dd) == 0
    ensures Pick(c & 0x20000000, 0x2a1462b3) == 0
  {
  }

  /** Below 2^25 nothing leaves the register, so a step only shifts and inserts. */
  lemma NoFeedback(c: word, v: word)
    requires c < 0x2000000
    ensures Step(c, v) == Xor(Shl5(c), v)
  {
    StepFlat(c, v);
    SmallParts(c);
    hide Step, Low, Xor, Shl5, Pick;
    XorZero(Xor(Shl5(c), v));
  }

  lemma LimitOrder(c: word, n: nat)
    requires n < 6 && Below(c, n)
    ensures c < 0x2000000
  {
  }

  lemma ShiftInsert(c: word, v: word)
    requires c < 0x2000000 && v < 32
    ensures Shr5(Xor(Shl5(c), v)) == c && Last(Xor(Shl5(c), v)) == v
  {
  }

  lemma ShiftRejoin(m: word)
    ensures Xor(Shl5(Shr5(m)), Last(m)) == m
  {
  }

  lemma PushSymbol(c: word, v: word, n: nat)
    requires n < 6 && Below(c, n) && v < 32
    ensures Below(Step(c, v), n + 1) && Shr5(Step(c, v)) == c && Last(Step(c, v)) == v
  {
    hide Step, Below, Shr5, Shl5, Last, Xor;
    LimitOrder(c, n);
    NoFeedback(c, v);
    ShiftInsert(c, v);
    ShrLimit(Step(c, v), n);
  }

  lemma AbsorbNext(c: word, vs: seq<byte>, v: byte)
    ensures Absorb(c, []) == c
    ensures Absorb(c, vs + [v]) == Step(Absorb(c, vs), v as word)
  {
    hide Step;
    assert (vs + [v])[..|vs|] == vs;
  }

  lemma SymbolsNext(m: word, n: nat)
    ensures Symbols(m, 0) == []
    ensures 0 <= Last(m) as int < 32 && (Last(m) as int) as word == Last(m)
    ensures Symbols(m, n + 1) == Symbols(Shr5(m), n) + [Last(m) as int]
  {
    LastRange(m);
    SymbolRange(Last(m));
  }

  /** Spelling a register in symbols and absorbing them from zero are inverse. */
  lemma {:induction false} SymbolsOfAbsorb(vs: seq<byte>)
    requires |vs| <= 6 && IsSymbols(vs)
    ensures Below(Absorb(0, vs), |vs|) && Symbols(Absorb(0, vs), |vs|) == vs
  {
    hide Step, Below, Shr5, Last, Absorb, Symbols;
    AbsorbNext(0, [], 0);
    if vs == [] {
      BelowEnds();
      SymbolsNext(0, 0);
    } else {
      var init, v := vs[..|vs| - 1], vs[|vs| - 1];
      assert vs == init + [v];
      SymbolsOfAbsorb(init);
      SymbolWord(v);
      AbsorbNext(0, init, v);
      PushSymbol(Absorb(0, init), v as word, |init|);
      SymbolsNext(Absorb(0, vs), |init|);
    }
  }

  lemma BelowEnds()
    ensures Below(0, 0) && forall m :: Below(m, 6) <==> Fits30(m)
  {
  }

  lemma LimitZero(m: word)
    requires Below(m, 0)
    ensures m == 0
  {
  }

  lemma {:induction false} AbsorbOfSymbols(m: word, n: nat)
    requires n <= 6 && Below(m, n)
    ensures Absorb(0, Symbols(m, n)) == m
    decreases n
  {
    hide Step, Below, Shr5, Shl5, Last, Xor, Absorb, Symbols;
    if n == 0 {
      LimitZero(m);
      AbsorbNext(0, [], 0);
      SymbolsNext(m, 0);
    } else {
      ShrLimit(m, n - 1);
      AbsorbOfSymbols(Shr5(m), n - 1);
      SymbolsNext(m, n - 1);
      LimitOrder(Shr5(m), n - 1);
      NoFeedback(Shr5(m), Last(m));
      ShiftRejoin(m);
      AbsorbNext(0, Symbols(Shr5(m), n - 1), Last(m) as int);
    }
  }

  /** (m >> 5 * (5 - i)) & 31, the symbol that position i of six spells. */
  function Group(m: word, i: nat): word {
    match i
    case 0 => (m >> 25) & 31
    case 1 => (m >> 20) & 31
    case 2 => (m >> 15) & 31
    case 3 => (m >> 10) & 31
    case 4 => (m >> 5) & 31
    case _ => m & 31
  }

  function Shifted(m: word, n: nat): word {
    if n == 0 then m else Shifted(Shr5(m), n - 1)
  }

  lemma {:induction false} SymbolAt(m: word, n: nat, k: nat)
    requires k < n
    ensures 0 <= Last(Shifted(m, n - 1 - k)) as int < 32
    ensures Symbols(m, n)[k] == Last(Shifted(m, n - 1 - k)) as int
    decreases n
  {
    hide Shr5, Last, Symbols;
    SymbolsNext(m, n - 1);
    if k < n - 1 {
      SymbolAt(Shr5(m), n - 1, k);
    }
  }

  lemma GroupMoves(m: word, i: nat)
    requires i < 5
    ensures Group(m, i) == Group(Shr5(m), i + 1)
  {
    if i == 0 {} else if i == 1 {} else if i == 2 {} else if i == 3 {} else {}
  }

  lemma {:induction false} GroupShifts(m: word, i: nat)
    requires i < 6
    ensures Group(m, i) == Last(Shifted(m, 5 - i))
    decreases 5 - i
  {
    if i < 5 {
      hide Group, Last, Shr5;
      GroupMoves(m, i);
      GroupShifts(Shr5(m), i + 1);
    }
  }

  lemma GroupIsSymbol(m: word, i: nat)
    requires i < 6
    ensures 0 <= Group(m, i) as int < 32 && Symbols(m, 6)[i] == Group(m, i) as int
  {
    hide Shifted, Last, Symbols, Group;
    GroupShifts(m, i);
    SymbolAt(m, 6, i);
  }

  // ----- The six checksum symbols -----

  lemma {:induction false} AbsorbConcat(c: word, a: seq<byte>, b: seq<byte>)
    ensures Absorb(c, a + b) == Absorb(Absorb(c, a), b)
  {
    hide Absorb, Step;
    AbsorbNext(Absorb(c, a), [], 0);
    if b == [] {
      assert a + b == a;
    } else {
      var init, v := b[..|b| - 1], b[|b| - 1];
      AbsorbConcat(c, a, init);
      assert b == init + [v] && a + b == (a + init) + [v];
      AbsorbNext(c, a + init, v);
      AbsorbNext(Absorb(c, a), init, v);
    }
  }

  lemma {:induction false} AbsorbFits(c: word, vs: seq<byte>)
    requires Fits30(c) && IsSymbols(vs)
    ensures Fits30(Absorb(c, vs))
  {
    hide Absorb, Step, Fits30;
    AbsorbNext(c, [], 0);
    if vs != [] {
      var init, v := vs[..|vs| - 1], vs[|vs| - 1];
      AbsorbFits(c, init);
      assert vs == init + [v];
      AbsorbNext(c, init, v);
      SymbolWord(v);
      StepFits(Absorb(c, init), v as word);
    }
  }

  function Zeros(n: nat): (vs: seq<byte>)
    ensures |vs| == n && IsSymbols(vs)
  {
    Repeat(0, n)
  }

  lemma ZeroWord()
    ensures (0 as byte) as word == 0
  {
  }

  /** Absorbing a list splits into absorbing zeros and absorbing the list from zero. */
  lemma {:induction false} AbsorbSplit(c: word, vs: seq<byte>)
    ensures Absorb(c, vs) == Xor(Absorb(c, Zeros(|vs|)), Absorb(0, vs))
  {
    hide Absorb, Step, Xor;
    AbsorbNext(c, [], 0);
    AbsorbNext(0, [], 0);
    ZeroWord();
    if vs == [] {
      assert Zeros(0) == [];
      XorZero(c);
    } else {
      var init, v, zeros: seq<byte> := vs[..|vs| - 1], vs[|vs| - 1], Zeros(|vs| - 1);
      AbsorbSplit(c, init);
      assert vs == init + [v] && Zeros(|vs|) == zeros + [0];
      AbsorbNext(c, init, v);
      AbsorbNext(0, init, v);
      AbsorbNext(c, zeros, 0);
      StepLinear(Absorb(c, zeros), Absorb(0, init), 0, v as word);
      XorZero(v as word);
    }
  }

  function Checksum(prefix: word, target: word): seq<byte> {
    Symbols(Xor(Absorb(prefix, Zeros(6)), target), 6)
  }

  lemma ChecksumBelow(prefix: word, target: word)
    requires Fits30(prefix) && Fits30(target)
    ensures Below(Xor(Absorb(prefix, Zeros(6)), target), 6)
  {
    hide Absorb, Xor, Below, Fits30, Zeros;
    AbsorbFits(prefix, Zeros(6));
    XorFits(Absorb(prefix, Zeros(6)), target);
    BelowEnds();
  }

  /** Six symbols reach the target exactly when they are the checksum: it exists and is unique. */
  lemma ChecksumUnique(prefix: word, target: word, six: seq<byte>)
    requires Fits30(prefix) && Fits30(target) && |six| == 6 && IsSymbols(six)
    ensures Absorb(prefix, six) == target <==> six == Checksum(prefix, target)
  {
    hide Absorb, Symbols, Xor, Below, Fits30, Zeros;
    ChecksumBelow(prefix, target);
    AbsorbSplit(prefix, six);
    AbsorbOfSymbols(Xor(Absorb(prefix, Zeros(6)), target), 6);
    SymbolsOfAbsorb(six);
    XorSolve(Absorb(prefix, Zeros(6)), Absorb(0, six), target);
  }

  lemma XorSolve(z: word, a: word, t: word)
    ensures Xor(z, a) == t <==> a == Xor(z, t)
  {
    hide Xor;
    XorAssoc(z, z, a);
    XorAssoc(z, z, t);
    XorZero(z);
    XorZero(a);
    XorZero(t);
  }

  // ----- Error detection -----

  lemma {:induction false} AbsorbInjective(c: word, d: word, vs: seq<byte>)
    requires Fits30(c) && Fits30(d) && IsSymbols(vs) && Absorb(c, vs) == Absorb(d, vs)
    ensures c == d
  {
    hide Absorb, Step, Fits30;
    AbsorbNext(c, [], 0);
    AbsorbNext(d, [], 0);
    if vs != [] {
      var init, v := vs[..|vs| - 1], vs[|vs| - 1];
      assert vs == init + [v];
      AbsorbNext(c, init, v);
      AbsorbNext(d, init, v);
      AbsorbFits(c, init);
      AbsorbFits(d, init);
      StepInjective(Absorb(c, init), Absorb(d, init), v as word);
      AbsorbInjective(c, d, init);
    }
  }

  /** Any change confined to six consecutive symbols changes the final register. */
  lemma BurstChanges(c: word, a: seq<byte>, v: seq<byte>, w: seq<byte>, b: seq<byte>)
    requires Fits30(c) && IsSymbols(a) && IsSymbols(v) && IsSymbols(w) && IsSymbols(b)
    requires |v| == |w| <= 6 && v != w
    ensures Absorb(c, a + v + b) != Absorb(c, a + w + b)
  {
    hide Absorb, Step, Fits30, Xor, Symbols, Zeros;
    var at := Absorb(c, a);
    AbsorbConcat(c, a + v, b);
    AbsorbConcat(c, a + w, b);
    AbsorbConcat(c, a, v);
    AbsorbConcat(c, a, w);
    AbsorbFits(c, a);
    AbsorbFits(at, v);
    AbsorbFits(at, w);
    if Absorb(c, a + v + b) == Absorb(c, a + w + b) {
      AbsorbInjective(Absorb(at, v), Absorb(at, w), b);
      AbsorbSplit(at, v);
      AbsorbSplit(at, w);
      XorSolve(Absorb(at, Zeros(|v|)), Absorb(0, v), Absorb(at, v));
      XorSolve(Absorb(at, Zeros(|v|)), Absorb(0, w), Absorb(at, v));
      SymbolsOfAbsorb(v);
      SymbolsOfAbsorb(w);
    }
  }
}
