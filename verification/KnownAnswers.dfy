/** Known answers of XXH64.  Each takes the algorithm step by step on literal values, so
    together they fix every constant, every rotation and every shift. */
module KnownAnswers {
  import opened Words64
  import opened XxHash64

  // ---------- exclusive or of numbers written out ----------

  function Value(x: bv8): nat { x as nat }

  function Low(x: bv8): nat { (x & 1) as nat }

  function Rest(x: bv8): bv8 { x >> 1 }

  function Exclusive(x: bv8, y: bv8): bv8 { x ^ y }

  lemma LastBit(x: bv8)
    ensures Value(x) == 2 * Value(Rest(x)) + Low(x) && Low(x) < 2
  {
  }

  lemma LastBits(x: bv8, y: bv8)
    ensures Rest(Exclusive(x, y)) == Exclusive(Rest(x), Rest(y))
    ensures Low(Exclusive(x, y)) == (Low(x) + Low(y)) % 2
  {
    assert (x ^ y) & 1 == (x & 1) ^ (y & 1);
    OneBit(x & 1, y & 1);
  }

  lemma OneBit(x: bv8, y: bv8)
    requires x <= 1 && y <= 1
    ensures (x ^ y) as nat == (x as nat + y as nat) % 2
  {
  }

  lemma NoBits(x: bv8, y: bv8)
    requires Value(x) == 0 && Value(y) == 0
    ensures Value(Exclusive(x, y)) == 0
  {
  }

  lemma XorBit(a: nat, b: nat, c: nat, d: nat)
    requires c < 2 && d < 2
    ensures Xor(2 * a + c, 2 * b + d) == 2 * Xor(a, b) + (c + d) % 2
  {
    hide Xor;
    XorStep(2 * a + c, 2 * b + d);
    assert (2 * a + c) / 2 == a && (2 * b + d) / 2 == b;
  }

  lemma XorLowStep(p: nat, a: nat, b: nat, c: nat, u: nat, v: nat, w: nat, s: nat, t: nat)
    requires s < 2 && t < 2 && Xor(p * a + u, p * b + v) == p * c + w
    ensures Xor(2 * p * a + (2 * u + s), 2 * p * b + (2 * v + t)) == 2 * p * c + (2 * w + (s + t) % 2)
  {
    hide Xor;
    XorBit(p * a + u, p * b + v, s, t);
    TimesTwo(p, a);
    TimesTwo(p, b);
    TimesTwo(p, c);
  }

  lemma {:induction false} XorLow(k: nat, a: nat, b: nat, x: bv8, y: bv8)
    requires Value(x) < Pow2(k) && Value(y) < Pow2(k)
    ensures Xor(Pow2(k) * a + Value(x), Pow2(k) * b + Value(y)) == Pow2(k) * Xor(a, b) + Value(Exclusive(x, y))
  {
    hide Xor, Value, Low, Rest, Exclusive;
    var z := Exclusive(x, y);
    if k == 0 {
      NoBits(x, y);
    } else {
      LastBit(x);
      LastBit(y);
      LastBit(z);
      LastBits(x, y);
      XorLow(k - 1, a, b, Rest(x), Rest(y));
      XorLowStep(Pow2(k - 1), a, b, Xor(a, b), Value(Rest(x)), Value(Rest(y)), Value(Rest(z)), Low(x), Low(y));
    }
  }

  /** A number with these four low bytes. */
  function Number(a: nat, x3: bv8, x2: bv8, x1: bv8, x0: bv8): nat {
    0x1_0000_0000 * a + 0x100_0000 * x3 as nat + 0x1_0000 * x2 as nat + 0x100 * x1 as nat + x0 as nat
  }

  lemma XorByte(a: nat, b: nat, x: bv8, y: bv8)
    ensures Xor(0x100 * a + x as nat, 0x100 * b + y as nat) == 0x100 * Xor(a, b) + (x ^ y) as nat
  {
    hide Xor;
    EightBits();
    XorLow(8, a, b, x, y);
  }

  lemma Regroup(a: nat, x3: bv8, x2: bv8, x1: bv8, x0: bv8)
    ensures Number(a, x3, x2, x1, x0)
         == 0x100 * (0x100 * (0x100 * (0x100 * a + x3 as nat) + x2 as nat) + x1 as nat) + x0 as nat
  {
  }

  lemma XorNumbers(a: nat, x3: bv8, x2: bv8, x1: bv8, x0: bv8, b: nat, y3: bv8, y2: bv8, y1: bv8, y0: bv8, c: nat)
    requires Xor(a, b) == c
    ensures Xor(Number(a, x3, x2, x1, x0), Number(b, y3, y2, y1, y0)) == Number(c, x3 ^ y3, x2 ^ y2, x1 ^ y1, x0 ^ y0)
  {
    hide Xor, Number;
    Regroup(a, x3, x2, x1, x0);
    Regroup(b, y3, y2, y1, y0);
    Regroup(c, x3 ^ y3, x2 ^ y2, x1 ^ y1, x0 ^ y0);
    XorByte(a, b, x3, y3);
    var a1, b1 := 0x100 * a + x3 as nat, 0x100 * b + y3 as nat;
    XorByte(a1, b1, x2, y2);
    var a2, b2 := 0x100 * a1 + x2 as nat, 0x100 * b1 + y2 as nat;
    XorByte(a2, b2, x1, y1);
    XorByte(0x100 * a2 + x1 as nat, 0x100 * b2 + y1 as nat, x0, y0);
  }

  function Eight(x7: bv8, x6: bv8, x5: bv8, x4: bv8, x3: bv8, x2: bv8, x1: bv8, x0: bv8): nat {
    Number(Number(0, x7, x6, x5, x4), x3, x2, x1, x0)
  }

  lemma XorEight(x7: bv8, x6: bv8, x5: bv8, x4: bv8, x3: bv8, x2: bv8, x1: bv8, x0: bv8,
                 y7: bv8, y6: bv8, y5: bv8, y4: bv8, y3: bv8, y2: bv8, y1: bv8, y0: bv8)
    ensures Xor(Eight(x7, x6, x5, x4, x3, x2, x1, x0), Eight(y7, y6, y5, y4, y3, y2, y1, y0))
         == Eight(x7 ^ y7, x6 ^ y6, x5 ^ y5, x4 ^ y4, x3 ^ y3, x2 ^ y2, x1 ^ y1, x0 ^ y0)
  {
    hide Xor, Number;
    XorOfZeros();
    XorNumbers(0, x7, x6, x5, x4, 0, y7, y6, y5, y4, 0);
    XorNumbers(Number(0, x7, x6, x5, x4), x3, x2, x1, x0, Number(0, y7, y6, y5, y4), y3, y2, y1, y0,
               Number(0, x7 ^ y7, x6 ^ y6, x5 ^ y5, x4 ^ y4));
  }

  lemma XorOfZeros()
    ensures Xor(0, 0) == 0
  {
  }

  // ---------- powers, lanes ----------

  lemma Powers()
    ensures Pow2(1) == 0x2 && Pow2(63) == 0x8000_0000_0000_0000
    ensures Pow2(7) == 0x80 && Pow2(57) == 0x200_0000_0000_0000
    ensures Pow2(12) == 0x1000 && Pow2(52) == 0x10_0000_0000_0000
    ensures Pow2(18) == 0x4_0000 && Pow2(46) == 0x4000_0000_0000
    ensures Pow2(11) == 0x800 && Pow2(53) == 0x20_0000_0000_0000
    ensures Pow2(23) == 0x80_0000 && Pow2(41) == 0x200_0000_0000
    ensures Pow2(27) == 0x800_0000 && Pow2(37) == 0x20_0000_0000
    ensures Pow2(31) == 0x8000_0000 && Pow2(33) == 0x2_0000_0000
    ensures Pow2(29) == 0x2000_0000 && Pow2(32) == 0x1_0000_0000
  {
    hide Pow2;
    SmallPowers();
    EightBits();
    PowAdd(8, 8);
    PowAdd(16, 8);
    PowAdd(16, 16);
    PowAdd(32, 8);
    PowAdd(32, 16);
    PowAdd(48, 8);
    PowAdd(8, 3);
    PowAdd(8, 4);
    PowAdd(16, 2);
    PowAdd(16, 7);
    PowAdd(24, 3);
    PowAdd(24, 5);
    PowAdd(24, 7);
    PowAdd(32, 1);
    PowAdd(32, 5);
    PowAdd(40, 1);
    PowAdd(40, 6);
    PowAdd(48, 4);
    PowAdd(48, 5);
    PowAdd(56, 1);
    PowAdd(56, 7);
  }

  lemma SmallPowers()
    ensures Pow2(1) == 2 && Pow2(2) == 4 && Pow2(3) == 8 && Pow2(4) == 16
    ensures Pow2(5) == 32 && Pow2(6) == 64 && Pow2(7) == 128
  {
    assert Pow2(4) == 16;
  }

  lemma LaneIs(s: seq<Byte>, i: nat)
    requires i + 8 <= |s|
    ensures Lane(s, i) == Four(s, i) + 0x1_0000_0000 * Four(s, i + 4)
  {
    FourDigits(s, i, i + 8);
    FourDigits(s, i + 4, i + 8);
    assert s[i + 8..i + 8] == [];
  }

  lemma HalfIs(s: seq<Byte>, i: nat)
    requires i + 4 <= |s|
    ensures Half(s, i) == Four(s, i)
  {
    FourDigits(s, i, i + 4);
    assert s[i + 4..i + 4] == [];
  }

  function Four(s: seq<Byte>, i: nat): nat
    requires i + 4 <= |s|
  {
    var b0: nat, b1: nat, b2: nat, b3: nat := s[i], s[i + 1], s[i + 2], s[i + 3];
    b0 + 0x100 * b1 + 0x1_0000 * b2 + 0x100_0000 * b3
  }

  lemma OneDigit(s: seq<Byte>, i: nat, j: nat)
    requires i < j <= |s|
    ensures Little(s[i..j]) == s[i] as nat + 0x100 * Little(s[i + 1..j])
  {
    assert s[i..j][1..] == s[i + 1..j];
  }

  lemma FourDigits(s: seq<Byte>, i: nat, j: nat)
    requires i + 4 <= j <= |s|
    ensures Little(s[i..j]) == Four(s, i) + 0x1_0000_0000 * Little(s[i + 4..j])
  {
    hide Little;
    OneDigit(s, i, j);
    OneDigit(s, i + 1, j);
    OneDigit(s, i + 2, j);
    OneDigit(s, i + 3, j);
  }

  // ---------- one step, with what comes out of each operation ----------

  lemma MixIs(acc: Word, lane: Word, p: Word, s: Word, u: Word, r: Word)
    requires Times(lane, PRIME2) == p && Plus(acc, p) == s && Rotate(s, 31) == u && Times(u, PRIME1) == r
    ensures Mix(acc, lane) == r
  {
  }

  lemma MergeIs(h: Word, acc: Word, m: Word, x: Word, p: Word, r: Word)
    requires Mix(0, acc) == m && XorWords(h, m) == x && Times(x, PRIME1) == p && Plus(p, PRIME4) == r
    ensures Merge(h, acc) == r
  {
  }

  lemma LaneStepIs(h: Word, lane: Word, m: Word, x: Word, u: Word, p: Word, r: Word)
    requires Mix(0, lane) == m && XorWords(h, m) == x && Rotate(x, 27) == u
    requires Times(u, PRIME1) == p && Plus(p, PRIME4) == r
    ensures LaneStep(h, lane) == r
  {
  }

  lemma HalfStepIs(h: Word, lane: Word, m: Word, x: Word, u: Word, p: Word, r: Word)
    requires Times(lane, PRIME1) == m && XorWords(h, m) == x && Rotate(x, 23) == u
    requires Times(u, PRIME2) == p && Plus(p, PRIME3) == r
    ensures HalfStep(h, lane) == r
  {
  }

  lemma ByteStepIs(h: Word, b: Byte, m: Word, x: Word, u: Word, r: Word)
    requires Times(b, PRIME5) == m && XorWords(h, m) == x && Rotate(x, 11) == u && Times(u, PRIME1) == r
    ensures ByteStep(h, b) == r
  {
  }

  lemma FinishIs(h: Word, a: Word, b: Word, c: Word, d: Word, r: Word)
    requires XorShift(h, 33) == a && Times(a, PRIME2) == b && XorShift(b, 29) == c && Times(c, PRIME3) == d
    requires XorShift(d, 32) == r
    ensures Finish(h) == r
  {
  }

  // ---------- no bytes, and eight zero bytes ----------

  lemma FinishOfNothing()
    ensures Finish(0x27d4eb2f165667c5) == 0xef46db3751d8e999
  {
    hide Xor, Pow2, Finish;
    Powers();
    XorEight(0x27, 0xd4, 0xeb, 0x2f, 0x16, 0x56, 0x67, 0xc5,
             0x00, 0x00, 0x00, 0x00, 0x13, 0xea, 0x75, 0x97);
    XorEight(0xbe, 0xb1, 0x3d, 0xda, 0x13, 0xc2, 0xed, 0x4e,
             0x00, 0x00, 0x00, 0x05, 0xf5, 0x89, 0xee, 0xd0);
    XorEight(0xef, 0x46, 0xdb, 0x37, 0xbe, 0x9e, 0x32, 0xae,
             0x00, 0x00, 0x00, 0x00, 0xef, 0x46, 0xdb, 0x37);
    FinishIs(0x27d4eb2f165667c5, 0x27d4eb2f05bc1252, 0xbeb13dda13c2ed4e,
             0xbeb13ddfe64b039e, 0xef46db37be9e32ae, 0xef46db3751d8e999);
  }

  lemma HashOfNothing()
    ensures XXH64([], 0) == 0xef46db3751d8e999
  {
    hide Finish;
    FinishOfNothing();
    assert BeforeTail([], 0) == PRIME5;
  }

  lemma StepsOfZeros()
    ensures LaneStep(0x27d4eb2f165667cd, 0) == 0x68197e6a8e7c2852
    ensures Finish(0x68197e6a8e7c2852) == 0x34c96acdcadb1bbb
  {
    hide Xor, Pow2, Mix, LaneStep, Finish;
    Powers();
    MixIs(0, 0, 0, 0, 0, 0);
    XorEight(0x27, 0xd4, 0xeb, 0x2f, 0x16, 0x56, 0x67, 0xcd,
             0x00, 0x00, 0x00, 0x00, 0x00, 0x00, 0x00, 0x00);
    LaneStepIs(0x27d4eb2f165667cd, 0, 0,
               0x27d4eb2f165667cd, 0x78b2b33e693ea759, 0xe22db3f2cbc979ef, 0x68197e6a8e7c2852);
    XorEight(0x68, 0x19, 0x7e, 0x6a, 0x8e, 0x7c, 0x28, 0x52,
             0x00, 0x00, 0x00, 0x00, 0x34, 0x0c, 0xbf, 0x35);
    XorEight(0xc1, 0x0d, 0x9d, 0xed, 0xf6, 0x06, 0x45, 0xc9,
             0x00, 0x00, 0x00, 0x06, 0x08, 0x6c, 0xef, 0x6f);
    XorEight(0x34, 0xc9, 0x6a, 0xcd, 0xfe, 0x12, 0x71, 0x76,
             0x00, 0x00, 0x00, 0x00, 0x34, 0xc9, 0x6a, 0xcd);
    FinishIs(0x68197e6a8e7c2852, 0x68197e6aba709767, 0xc10d9dedf60645c9,
             0xc10d9debfe6aaaa6, 0x34c96acdfe127176, 0x34c96acdcadb1bbb);
  }

  lemma HashOfZeros()
    ensures XXH64([0, 0, 0, 0, 0, 0, 0, 0], 0) == 0x34c96acdcadb1bbb
  {
    hide Finish, LaneStep, Lane, Tail;
    var s: seq<Byte> := [0, 0, 0, 0, 0, 0, 0, 0];
    StepsOfZeros();
    LaneIs(s, 0);
    TailAt(s, 0, 0x27d4eb2f165667cd);
    NoTail(s[8..], 0x68197e6a8e7c2852);
    assert s[0..] == s;
  }

  // ---------- a stripe, a half lane and three bytes ----------

  const PHRASE_ACCUMULATORS := Accumulators(
    0x37245127a4067e4b, 0x1b302b0a818f92cf, 0xcd62d843d0580fca, 0x1c16e43ef2142a4a)

  lemma PhraseMixed()
    ensures Mix(0x60ea27eeadc0b5d6, 0x692079646f626f4e) == 0x37245127a4067e4b
    ensures Mix(0xc2b2ae3d27d4eb4f, 0x207374636570736e) == 0x1b302b0a818f92cf
    ensures Mix(0, 0x6d61707320656874) == 0xcd62d843d0580fca
    ensures Mix(0x61c8864e7a143579, 0x706572206873696d) == 0x1c16e43ef2142a4a
  {
    hide Pow2, Mix;
    Powers();
    MixIs(0x60ea27eeadc0b5d6, 0x692079646f626f4e, 0x6f06e4cca24f312,
          0x67da963b77e5a8e8, 0xbbf2d47433ed4b1d, 0x37245127a4067e4b);
    MixIs(0xc2b2ae3d27d4eb4f, 0x207374636570736e, 0xbef890b5e0c198f2,
          0x81ab3ef308968441, 0x844b4220c0d59f79, 0x1b302b0a818f92cf);
    MixIs(0, 0x6d61707320656874, 0xa6264cc423db7cc, 0xa6264cc423db7cc, 0x211edbe605313266, 0xcd62d843d0580fca);
    MixIs(0x61c8864e7a143579, 0x706572206873696d, 0x7ec4417e16a897a3,
          0xe08cc7cc90bccd1c, 0x485e668e704663e6, 0x1c16e43ef2142a4a);
  }

  lemma PhraseRotated()
    ensures Rotate(0x37245127a4067e4b, 1) == 0x6e48a24f480cfc96
    ensures Rotate(0x1b302b0a818f92cf, 7) == 0x98158540c7c9678d
    ensures Rotate(0xcd62d843d0580fca, 12) == 0x2d843d0580fcacd6
    ensures Rotate(0x1c16e43ef2142a4a, 18) == 0x90fbc850a928705b
  {
    hide Pow2;
    Powers();
  }

  lemma PhraseMerged()
    ensures Merge(0xc4de2ce639fb8154, 0x37245127a4067e4b) == 0x30d40ddd00aea144
    ensures Merge(0x30d40ddd00aea144, 0x1b302b0a818f92cf) == 0xe5a1f095bf498698
    ensures Merge(0xe5a1f095bf498698, 0xcd62d843d0580fca) == 0xf9cee721e748096d
    ensures Merge(0xf9cee721e748096d, 0x1c16e43ef2142a4a) == 0x84f22c421a11a8b5
  {
    hide Xor, Pow2, Mix, Merge;
    Powers();
    MixIs(0, 0x37245127a4067e4b, 0xbf0e534a970bd225, 0xbf0e534a970bd225, 0x4b85e912df8729a5, 0x7790ff1f7a9a2803);
    XorEight(0xc4, 0xde, 0x2c, 0xe6, 0x39, 0xfb, 0x81, 0x54,
             0x77, 0x90, 0xff, 0x1f, 0x7a, 0x9a, 0x28, 0x03);
    MergeIs(0xc4de2ce639fb8154, 0x37245127a4067e4b, 0x7790ff1f7a9a2803,
            0xb34ed3f94361a957, 0xaae843653dfbf2e1, 0x30d40ddd00aea144);
    MixIs(0, 0x1b302b0a818f92cf, 0x40bcc4c2e37e52e1, 0x40bcc4c2e37e52e1, 0x71bf2970a05e6261, 0xdeced6c0bf716b27);
    XorEight(0x30, 0xd4, 0x0d, 0xdd, 0x00, 0xae, 0xa1, 0x44,
             0xde, 0xce, 0xd6, 0xc0, 0xbf, 0x71, 0x6b, 0x27);
    MergeIs(0x30d40ddd00aea144, 0x1b302b0a818f92cf, 0xdeced6c0bf716b27,
            0xee1adb1dbfdfca63, 0x5fb6261dfc96d835, 0xe5a1f095bf498698);
    MixIs(0, 0xcd62d843d0580fca, 0x1917ffa4faf34d56, 0x1917ffa4faf34d56, 0x7d79a6ab0c8bffd2, 0x70073eb805759bbe);
    XorEight(0xe5, 0xa1, 0xf0, 0x95, 0xbf, 0x49, 0x86, 0x98,
             0x70, 0x07, 0x3e, 0xb8, 0x05, 0x75, 0x9b, 0xbe);
    MergeIs(0xe5a1f095bf498698, 0xcd62d843d0580fca, 0x70073eb805759bbe,
            0x95a6ce2dba3c1d26, 0x73e31caa24955b0a, 0xf9cee721e748096d);
    MixIs(0, 0x1c16e43ef2142a4a, 0x2898226b8252fad6, 0x2898226b8252fad6, 0xc1297d6b144c1135, 0xc1cbbae50e57e4f3);
    XorEight(0xf9, 0xce, 0xe7, 0x21, 0xe7, 0x48, 0x09, 0x6d,
             0xc1, 0xcb, 0xba, 0xe5, 0x0e, 0x57, 0xe4, 0xf3);
    MergeIs(0xf9cee721e748096d, 0x1c16e43ef2142a4a, 0xc1cbbae50e57e4f3,
            0x38055dc4e91fed9e, 0xff0661ca575efa52, 0x84f22c421a11a8b5);
  }

  lemma PhraseConverged()
    ensures Converge(PHRASE_ACCUMULATORS) == 0x84f22c421a11a8b5
  {
    hide Merge, Rotate;
    PhraseRotated();
    PhraseMerged();
  }

  lemma PhraseTailed()
    ensures HalfStep(0x84f22c421a11a8dc, 0x74697465) == 0x9fca0f5d0aaa110f
    ensures ByteStep(0x9fca0f5d0aaa110f, 0x69) == 0x769671546f21ba14
    ensures ByteStep(0x769671546f21ba14, 0x6f) == 0xeae9b643c5f94e52
    ensures ByteStep(0xeae9b643c5f94e52, 0x6e) == 0x1d0a47483b37cc24
  {
    hide Xor, Pow2, HalfStep, ByteStep;
    Powers();
    XorEight(0x84, 0xf2, 0x2c, 0x42, 0x1a, 0x11, 0xa8, 0xdc,
             0xe9, 0x86, 0x39, 0x33, 0xeb, 0x2b, 0x13, 0x43);
    HalfStepIs(0x84f22c421a11a8dc, 0x74697465, 0xe9863933eb2b1343,
               0x6d741571f13abb9f, 0xb8f89d5dcfb6ba0a, 0x8973a7ab6c729716, 0x9fca0f5d0aaa110f);
    XorEight(0x9f, 0xca, 0x0f, 0x5d, 0x0a, 0xaa, 0x11, 0x0f,
             0x56, 0x54, 0x76, 0x50, 0x29, 0x70, 0x8f, 0xcd);
    ByteStepIs(0x9fca0f5d0aaa110f, 0x69, 0x5654765029708fcd,
               0xc99e790d23da9ec2, 0xf3c8691ed4f6164c, 0x769671546f21ba14);
    XorEight(0x76, 0x96, 0x71, 0x54, 0x6f, 0x21, 0xba, 0x14,
             0x45, 0x51, 0xf9, 0x6a, 0xaf, 0x76, 0xfe, 0x6b);
    ByteStepIs(0x769671546f21ba14, 0x6f, 0x4551f96aaf76fe6b,
               0x33c7883ec057447f, 0x3c41f602ba23f99e, 0xeae9b643c5f94e52);
    XorEight(0xea, 0xe9, 0xb6, 0x43, 0xc5, 0xf9, 0x4e, 0x52,
             0x1d, 0x7d, 0x0e, 0x3b, 0x99, 0x20, 0x96, 0xa6);
    ByteStepIs(0xeae9b643c5f94e52, 0x6e, 0x1d7d0e3b992096a6,
               0xf794b8785cd9d8f4, 0xa5c3c2e6cec7a7bc, 0x1d0a47483b37cc24);
  }

  lemma FinishOfPhrase()
    ensures Finish(0x1d0a47483b37cc24) == 0xfbcea83c8a378bf1
  {
    hide Xor, Pow2, Finish;
    Powers();
    XorEight(0x1d, 0x0a, 0x47, 0x48, 0x3b, 0x37, 0xcc, 0x24,
             0x00, 0x00, 0x00, 0x00, 0x0e, 0x85, 0x23, 0xa4);
    XorEight(0x5f, 0x02, 0x14, 0xbe, 0xaa, 0x12, 0x68, 0x80,
             0x00, 0x00, 0x00, 0x02, 0xf8, 0x10, 0xa5, 0xf5);
    XorEight(0xfb, 0xce, 0xa8, 0x3c, 0x71, 0xf9, 0x23, 0xcd,
             0x00, 0x00, 0x00, 0x00, 0xfb, 0xce, 0xa8, 0x3c);
    FinishIs(0x1d0a47483b37cc24, 0x1d0a474835b2ef80, 0x5f0214beaa126880,
             0x5f0214bc5202cd75, 0xfbcea83c71f923cd, 0xfbcea83c8a378bf1);
  }

  function Code(c: char): Byte { c as nat % 256 }

  /** The codes of a text. */
  function Codes(t: string): (s: seq<Byte>)
    ensures |s| == |t| && forall k :: 0 <= k < |t| ==> s[k] == Code(t[k])
  {
    seq(|t|, k requires 0 <= k < |t| => Code(t[k]))
  }

  const PHRASE := "Nobody i" + "nspects " + "the spam" + "mish rep" + "etition"

  lemma InsidePhrase(u: string, w: string, v: string, t: string)
    requires t == u + w + v && |w| == 8
    ensures Lane(Codes(t), |u|) == Lane(Codes(w), 0)
  {
    hide Code, Little;
    assert Codes(t)[|u|..|u| + 8] == Codes(w)[0..8];
  }

  lemma PieceLane(w: string, lane: Word)
    requires |w| == 8
    requires lane == Code(w[0]) as nat + 0x100 * Code(w[1]) as nat
      + 0x1_0000 * Code(w[2]) as nat + 0x100_0000 * Code(w[3]) as nat
      + 0x1_0000_0000 * (Code(w[4]) as nat + 0x100 * Code(w[5]) as nat
                         + 0x1_0000 * Code(w[6]) as nat + 0x100_0000 * Code(w[7]) as nat)
    ensures Lane(Codes(w), 0) == lane
  {
    hide Lane, Code;
    LaneIs(Codes(w), 0);
  }

  lemma PieceLanes()
    ensures Lane(Codes("Nobody i"), 0) == 0x692079646f626f4e && Lane(Codes("nspects "), 0) == 0x207374636570736e
    ensures Lane(Codes("the spam"), 0) == 0x6d61707320656874 && Lane(Codes("mish rep"), 0) == 0x706572206873696d
  {
    hide Lane, Codes;
    PieceLane("Nobody i", 0x692079646f626f4e);
    PieceLane("nspects ", 0x207374636570736e);
    PieceLane("the spam", 0x6d61707320656874);
    PieceLane("mish rep", 0x706572206873696d);
  }

  lemma PhraseLanes(s: seq<Byte>)
    requires s == Codes(PHRASE)
    ensures |s| == 39 && Lane(s, 0) == 0x692079646f626f4e && Lane(s, 8) == 0x207374636570736e
    ensures Lane(s, 16) == 0x6d61707320656874 && Lane(s, 24) == 0x706572206873696d
  {
    hide Lane, Codes;
    PieceLanes();
    var a, b, c, d, e := "Nobody i", "nspects ", "the spam", "mish rep", "etition";
    InsidePhrase("", a, b + c + d + e, PHRASE);
    InsidePhrase(a, b, c + d + e, PHRASE);
    InsidePhrase(a + b, c, d + e, PHRASE);
    InsidePhrase(a + b + c, d, e, PHRASE);
  }

  lemma LastBytes(s: seq<Byte>)
    requires s == Codes(PHRASE)
    ensures |s| == 39 && Half(s, 32) == 0x74697465 && s[36] == 105 && s[37] == 111 && s[38] == 110
  {
    hide Half;
    HalfIs(s, 32);
  }

  lemma StripeOfPhrase(s: seq<Byte>)
    requires s == Codes(PHRASE) && |s| == 39
    ensures Stripes(s, Start(0)) == PHRASE_ACCUMULATORS
  {
    hide Mix, Lane, Codes, PHRASE;
    PhraseLanes(s);
    PhraseMixed();
    assert Start(0) == Accumulators(0x60ea27eeadc0b5d6, 0xc2b2ae3d27d4eb4f, 0, 0x61c8864e7a143579);
    StripeAt(s, 0, Start(0));
    assert s[0..] == s;
    NoStripe(s[32..], PHRASE_ACCUMULATORS);
  }

  lemma TailOfPhrase(s: seq<Byte>)
    requires s == Codes(PHRASE) && |s| == 39
    ensures Tail(s[32..], 0x84f22c421a11a8dc) == 0x1d0a47483b37cc24
  {
    hide HalfStep, ByteStep, Half, Codes, PHRASE, Tail;
    LastBytes(s);
    TailAt(s, 32, 0x84f22c421a11a8dc);
    PhraseTailed();
    TailAt(s, 36, 0x9fca0f5d0aaa110f);
    TailAt(s, 37, 0x769671546f21ba14);
    TailAt(s, 38, 0xeae9b643c5f94e52);
    NoTail(s[39..], 0x1d0a47483b37cc24);
  }

  lemma HashOfPhrase()
    ensures XXH64(Codes("Nobody i" + "nspects " + "the spam" + "mish rep" + "etition"), 0) == 0xfbcea83c8a378bf1
  {
    hide Finish, Tail, Stripes, Start, Converge, Codes;
    var s := Codes(PHRASE);
    LastBytes(s);
    StripeOfPhrase(s);
    PhraseConverged();
    TailOfPhrase(s);
    FinishOfPhrase();
  }

  // ---------- what the constants are ----------

  /** Three known answers: no input, eight zero bytes (one lane), and a text that has
      one of everything: a stripe, the half lane and single bytes. */
  lemma ThreeAnswers()
    ensures XXH64([], 0) == 0xef46db3751d8e999
    ensures XXH64([0, 0, 0, 0, 0, 0, 0, 0], 0) == 0x34c96acdcadb1bbb
    ensures XXH64(Codes("Nobody i" + "nspects " + "the spam" + "mish rep" + "etition"), 0) == 0xfbcea83c8a378bf1
  {
    hide XXH64, Codes;
    HashOfNothing();
    HashOfZeros();
    HashOfPhrase();
  }

  /** Where the seed goes, for every seed: into all four accumulators, or into the sum
      with the length when there is no stripe. */
  lemma SeedSpelt(s: seq<Byte>, seed: int)
    ensures Start(seed) == Accumulators(
      (seed + 0x9e3779b185ebca87 + 0xc2b2ae3d27d4eb4f) % 0x1_0000_0000_0000_0000,
      (seed + 0xc2b2ae3d27d4eb4f) % 0x1_0000_0000_0000_0000,
      seed % 0x1_0000_0000_0000_0000,
      (seed - 0x9e3779b185ebca87) % 0x1_0000_0000_0000_0000)
    ensures |s| < 32 ==> BeforeTail(s, seed) == (seed + 0x27d4eb2f165667c5 + |s|) % 0x1_0000_0000_0000_0000
  {
    hide Stripes, Converge;
    PlusTwice(seed, PRIME1, PRIME2);
    PlusTwice(seed, PRIME5, |s|);
  }

  lemma PlusTwice(a: int, b: int, c: int)
    ensures Plus(Plus(a, b), c) == (a + b + c) % WORDS
  {
    PlusModulo(Plus(a, b), a + b, c);
  }
}
