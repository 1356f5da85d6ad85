/** xxHash64 over a byte buffer, against the XXH64 algorithm, steps 1 to 6, in
    arithmetic modulo 2^64. */
module XxHash64 {
  import opened Words64

  const PRIME1: Word := 0x9e3779b185ebca87
  const PRIME2: Word := 0xc2b2ae3d27d4eb4f
  const PRIME3: Word := 0x165667b19e3779f9
  const PRIME4: Word := 0x85ebca77c2b2ae63
  const PRIME5: Word := 0x27d4eb2f165667c5

  // ---------- the algorithm, step by step ----------

  function Mix(acc: Word, lane: Word): Word {
    Times(Rotate(Plus(acc, Times(lane, PRIME2)), 31), PRIME1)
  }

  function Merge(h: Word, acc: Word): Word {
    Plus(Times(XorWords(h, Mix(0, acc)), PRIME1), PRIME4)
  }

  lemma ShiftedWord(h: Word, n: nat)
    ensures h / Pow2(n) < WORDS
  {
    hide Pow2;
    QuotientSmaller(h, Pow2(n));
  }

  function XorShift(h: Word, n: nat): Word {
    hide Pow2;
    ShiftedWord(h, n);
    XorWords(h, h / Pow2(n))
  }

  function Finish(h: Word): Word {
    XorShift(Times(XorShift(Times(XorShift(h, 33), PRIME2), 29), PRIME3), 32)
  }

  datatype Accumulators = Accumulators(v1: Word, v2: Word, v3: Word, v4: Word)

  /** Step 1. */
  function Start(seed: int): Accumulators {
    Accumulators(Plus(Plus(seed, PRIME1), PRIME2), Plus(seed, PRIME2), Plus(seed, 0), Plus(seed - PRIME1, 0))
  }

  /** Step 2: the 32-byte stripes from the front of `s` on. */
  function Stripes(s: seq<Byte>, a: Accumulators): Accumulators {
    if |s| < 32 then a
    else Stripes(s[32..], Accumulators(
      Mix(a.v1, Lane(s, 0)), Mix(a.v2, Lane(s, 8)), Mix(a.v3, Lane(s, 16)), Mix(a.v4, Lane(s, 24))))
  }

  /** Step 3. */
  function Converge(a: Accumulators): Word {
    var h := Plus(Plus(Rotate(a.v1, 1), Rotate(a.v2, 7)), Plus(Rotate(a.v3, 12), Rotate(a.v4, 18)));
    Merge(Merge(Merge(Merge(h, a.v1), a.v2), a.v3), a.v4)
  }

  /** Step 4: the state before the remaining input is read. */
  function BeforeTail(s: seq<Byte>, seed: int): Word {
    Plus(if |s| >= 32 then Converge(Stripes(s, Start(seed))) else Plus(seed, PRIME5), |s|)
  }

  /** Step 5: at most 31 bytes, as 8-byte lanes, one 4-byte lane and single bytes. */
  function Tail(s: seq<Byte>, h: Word): Word
    decreases |s|
  {
    if |s| >= 8 then Tail(s[8..], LaneStep(h, Lane(s, 0)))
    else if |s| >= 4 then Tail(s[4..], HalfStep(h, Half(s, 0)))
    else if |s| >= 1 then Tail(s[1..], ByteStep(h, s[0]))
    else h
  }

  function LaneStep(h: Word, lane: Word): Word {
    Plus(Times(Rotate(XorWords(h, Mix(0, lane)), 27), PRIME1), PRIME4)
  }

  function HalfStep(h: Word, lane: Word): Word {
    Plus(Times(Rotate(XorWords(h, Times(lane, PRIME1)), 23), PRIME2), PRIME3)
  }

  function ByteStep(h: Word, b: Byte): Word {
    Times(Rotate(XorWords(h, Times(b, PRIME5)), 11), PRIME1)
  }

  /** Where the tail of an input of `n` bytes begins. */
  function TailStart(n: nat): (k: nat)
    ensures k <= n
  {
    n - n % 32
  }

  /** With step 6, the final mix. */
  function XXH64(s: seq<Byte>, seed: int): Word {
    Finish(Tail(s[TailStart(|s|)..], BeforeTail(s, seed)))
  }

  // ---------- the functions of the program ----------

  function Round(acc: Word, lane: Word): (r: Word)
    ensures r == Mix(acc, lane)
  {
    Mul(Rotl(Add(acc, Mul(lane, PRIME2)), 31), PRIME1)
  }

  function MergeAccumulator(h: Word, acc: Word): (r: Word)
    ensures r == Merge(h, acc)
  {
    Add(Mul(MaskedXor(h, Round(0, acc)), PRIME1), PRIME4)
  }

  lemma ShiftXor(h: Word, n: nat)
    ensures Xor(h, Shr(h, n)) == XorShift(h, n) < WORDS
  {
    hide Xor, Pow2;
    ShiftedWord(h, n);
  }

  lemma AvalancheIsFinish(h: Word)
    ensures var a := Mul(Xor(h, Shr(h, 33)), PRIME2);
      var b := Mul(Xor(a, Shr(a, 29)), PRIME3);
      Shr(b, 32) < WORDS && MaskedXor(b, Shr(b, 32)) == Finish(h)
  {
    hide Xor, Pow2, And, Shr, XorShift, Times, XorWords;
    ShiftXor(h, 33);
    var a := Mul(Xor(h, Shr(h, 33)), PRIME2);
    ShiftXor(a, 29);
    var b := Mul(Xor(a, Shr(a, 29)), PRIME3);
    MaskedShift(b, 32);
  }

  lemma MaskedShift(h: Word, n: nat)
    ensures Shr(h, n) < WORDS && MaskedXor(h, Shr(h, n)) == XorShift(h, n)
  {
    hide Xor, Pow2, And;
    ShiftedWord(h, n);
  }

  function Avalanche(h: Word): (r: Word)
    ensures r == Finish(h)
  {
    AvalancheIsFinish(h);
    var a := Mul(Xor(h, Shr(h, 33)), PRIME2);
    var b := Mul(Xor(a, Shr(a, 29)), PRIME3);
    MaskedXor(b, Shr(b, 32))
  }

  // ---------- the loops ----------

  method Hash(input: array<Byte>, seed: int) returns (r: Word)
    ensures r == XXH64(input[..], seed)
  {
    hide Mix, Merge, Finish, Plus, Rotate, Times, Stripes, Start, Tail, And, Xor;
    hide Mul, Add, Rotl, Round, MergeAccumulator, Avalanche;
    var len := input.Length;
    var h: Word;
    var off := 0;
    if len >= 32 {
      var a: Accumulators;
      a, off := HashStripes(input, seed);
      var v1, v2, v3, v4 := a.v1, a.v2, a.v3, a.v4;
      h := Add(Add(Rotl(v1, 1), Rotl(v2, 7)), Add(Rotl(v3, 12), Rotl(v4, 18)));
      h := MergeAccumulator(h, v1);
      h := MergeAccumulator(h, v2);
      h := MergeAccumulator(h, v3);
      h := MergeAccumulator(h, v4);
    } else {
      h := Add(seed, PRIME5);
    }
    h := Add(h, len);
    h := HashTail(input, off, h);
    return Avalanche(h);
  }

  method HashStripes(input: array<Byte>, seed: int) returns (a: Accumulators, off: nat)
    requires input.Length >= 32
    ensures off == TailStart(input.Length)
    ensures a == Stripes(input[..], Start(seed))
  {
    hide Stripes, Mix, Lane, Plus, And, Or;
    ghost var s := input[..];
    MaskIsRemainder(seed);
    MaskIsRemainder(seed - PRIME1);
    var v1 := Add(Add(seed, PRIME1), PRIME2);
    var v2 := Add(seed, PRIME2);
    var v3: Word := And(seed, M);
    var v4: Word := And(seed - PRIME1, M);
    PlusZero(seed);
    PlusZero(seed - PRIME1);
    off := 0;
    var limit := input.Length - 32;
    while off <= limit
      invariant off % 32 == 0 && off <= input.Length
      invariant Stripes(s, Start(seed)) == Stripes(s[off..], Accumulators(v1, v2, v3, v4))
    {
      StripeAt(s, off, Accumulators(v1, v2, v3, v4));
      v1 := Round(v1, U64le(input, off));
      v2 := Round(v2, U64le(input, off + 8));
      v3 := Round(v3, U64le(input, off + 16));
      v4 := Round(v4, U64le(input, off + 24));
      off := off + 32;
    }
    a := Accumulators(v1, v2, v3, v4);
    NoStripe(s[off..], a);
    TailStartIs(off, input.Length);
  }

  lemma NoStripe(s: seq<Byte>, a: Accumulators)
    requires |s| < 32
    ensures Stripes(s, a) == a
  {
  }

  lemma TailStartIs(off: nat, n: nat)
    requires off % 32 == 0 && off <= n < off + 32
    ensures off == TailStart(n)
  {
  }

  /** The three loops over the remaining input. */
  method HashTail(input: array<Byte>, start: nat, h0: Word) returns (h: Word)
    requires start <= input.Length
    ensures h == Tail(input[start..], h0)
  {
    hide Tail, Mix, Plus, Times, Rotate, XorWords, Lane, Half, And, Or, Xor, Add, Mul, Rotl, MaskedXor, Round, U64le, U32le;
    ghost var s := input[..];
    assert input[start..] == s[start..];
    var len, off := input.Length, start;
    h := h0;
    while off + 8 <= len
      invariant off <= len
      invariant Tail(s[start..], h0) == Tail(s[off..], h)
    {
      TailAt(s, off, h);
      var k := Round(0, U64le(input, off));
      h := Add(Mul(Rotl(MaskedXor(h, k), 27), PRIME1), PRIME4);
      off := off + 8;
    }
    if off + 4 <= len {
      TailAt(s, off, h);
      h := Add(Mul(Rotl(MaskedXor(h, Mul(U32le(input, off), PRIME1)), 23), PRIME2), PRIME3);
      off := off + 4;
    }
    while off < len
      invariant off <= len < off + 4
      invariant Tail(s[start..], h0) == Tail(s[off..], h)
    {
      TailAt(s, off, h);
      h := Mul(Rotl(MaskedXor(h, Mul(input[off], PRIME5)), 11), PRIME1);
      off := off + 1;
    }
    NoTail(s[off..], h);
  }

  lemma NoTail(s: seq<Byte>, h: Word)
    requires s == []
    ensures Tail(s, h) == h
  {
  }

  lemma LaneAt(s: seq<Byte>, off: nat, i: nat)
    requires off + i + 8 <= |s|
    ensures Lane(s[off..], i) == Lane(s, off + i)
  {
    hide Little;
    assert s[off..][i..i + 8] == s[off + i..off + i + 8];
  }

  lemma HalfAt(s: seq<Byte>, off: nat)
    requires off + 4 <= |s|
    ensures Half(s[off..], 0) == Half(s, off)
  {
    hide Little;
    assert s[off..][0..4] == s[off..off + 4];
  }

  lemma StripeAt(s: seq<Byte>, off: nat, a: Accumulators)
    requires off + 32 <= |s|
    ensures Stripes(s[off..], a) == Stripes(s[off + 32..], Accumulators(
      Mix(a.v1, Lane(s, off)), Mix(a.v2, Lane(s, off + 8)), Mix(a.v3, Lane(s, off + 16)), Mix(a.v4, Lane(s, off + 24))))
  {
    hide Mix, Lane;
    LaneAt(s, off, 0);
    LaneAt(s, off, 8);
    LaneAt(s, off, 16);
    LaneAt(s, off, 24);
  }

  lemma TailAt(s: seq<Byte>, off: nat, h: Word)
    requires off < |s|
    ensures off + 8 <= |s| ==> Tail(s[off..], h) == Tail(s[off + 8..], LaneStep(h, Lane(s, off)))
    ensures off + 4 <= |s| < off + 8 ==> Tail(s[off..], h) == Tail(s[off + 4..], HalfStep(h, Half(s, off)))
    ensures |s| < off + 4 ==> Tail(s[off..], h) == Tail(s[off + 1..], ByteStep(h, s[off]))
  {
    hide LaneStep, HalfStep, ByteStep, Lane, Half;
    if off + 8 <= |s| {
      LaneAt(s, off, 0);
    } else if off + 4 <= |s| {
      HalfAt(s, off);
    }
  }

  // ---------- every step can be undone ----------

  /** The primes are odd, so they have inverses. */
  lemma PrimesInvertible()
    ensures (PRIME1 * 0x0887493432badb37) % WORDS == 1 && (PRIME2 * 0x0ba79078168d4baf) % WORDS == 1
    ensures (PRIME3 * 0xe9e9f4c41d6df849) % WORDS == 1 && (PRIME5 * 0xc592c09fdfba7f0d) % WORDS == 1
  {
  }

  lemma XorShiftInjective(x: Word, y: Word, n: nat)
    requires n > 0 && XorShift(x, n) == XorShift(y, n)
    ensures x == y
  {
    hide Xor;
    XorOwnHighBits(x, y, n);
  }

  /** The final mix loses nothing. */
  lemma FinishInjective(g: Word, h: Word)
    requires Finish(g) == Finish(h)
    ensures g == h
  {
    hide Times, XorShift;
    PrimesInvertible();
    var g1, h1 := Times(XorShift(g, 33), PRIME2), Times(XorShift(h, 33), PRIME2);
    XorShiftInjective(Times(XorShift(g1, 29), PRIME3), Times(XorShift(h1, 29), PRIME3), 32);
    TimesInjective(XorShift(g1, 29), XorShift(h1, 29), PRIME3, 0xe9e9f4c41d6df849);
    XorShiftInjective(g1, h1, 29);
    TimesInjective(XorShift(g, 33), XorShift(h, 33), PRIME2, 0x0ba79078168d4baf);
    XorShiftInjective(g, h, 33);
  }

  lemma MixInjective(x: Word, y: Word)
    requires Mix(0, x) == Mix(0, y)
    ensures x == y
  {
    hide Times, Plus, Rotate;
    PrimesInvertible();
    var a, b := Plus(0, Times(x, PRIME2)), Plus(0, Times(y, PRIME2));
    TimesInjective(Rotate(a, 31), Rotate(b, 31), PRIME1, 0x0887493432badb37);
    RotateInjective(a, b, 31);
    PlusFromZero(Times(x, PRIME2));
    PlusFromZero(Times(y, PRIME2));
    TimesInjective(x, y, PRIME2, 0x0ba79078168d4baf);
  }

  /** Each tail step is injective in the state for a given input, and in the input
      for a given state. */
  lemma LaneStepInjective(g: Word, x: Word, h: Word, y: Word)
    requires LaneStep(g, x) == LaneStep(h, y)
    ensures g == h <==> x == y
  {
    hide Times, Plus, Rotate, XorWords, Mix;
    PrimesInvertible();
    var a, b := XorWords(g, Mix(0, x)), XorWords(h, Mix(0, y));
    PlusInjective(Times(Rotate(a, 27), PRIME1), Times(Rotate(b, 27), PRIME1), PRIME4);
    TimesInjective(Rotate(a, 27), Rotate(b, 27), PRIME1, 0x0887493432badb37);
    RotateInjective(a, b, 27);
    XorCancels(g, Mix(0, x), h, Mix(0, y));
    if g == h {
      MixInjective(x, y);
    }
  }

  lemma HalfStepInjective(g: Word, x: Word, h: Word, y: Word)
    requires HalfStep(g, x) == HalfStep(h, y)
    ensures g == h <==> x == y
  {
    hide Times, Plus, Rotate, XorWords;
    PrimesInvertible();
    var u, v := Times(x, PRIME1), Times(y, PRIME1);
    var a, b := XorWords(g, u), XorWords(h, v);
    PlusInjective(Times(Rotate(a, 23), PRIME2), Times(Rotate(b, 23), PRIME2), PRIME3);
    TimesInjective(Rotate(a, 23), Rotate(b, 23), PRIME2, 0x0ba79078168d4baf);
    RotateInjective(a, b, 23);
    XorCancels(g, u, h, v);
    if g == h {
      TimesInjective(x, y, PRIME1, 0x0887493432badb37);
    }
  }

  lemma ByteStepInjective(g: Word, x: Byte, h: Word, y: Byte)
    requires ByteStep(g, x) == ByteStep(h, y)
    ensures g == h <==> x == y
  {
    hide Times, Rotate, XorWords;
    PrimesInvertible();
    var u, v := Times(x, PRIME5), Times(y, PRIME5);
    var a, b := XorWords(g, u), XorWords(h, v);
    TimesInjective(Rotate(a, 11), Rotate(b, 11), PRIME1, 0x0887493432badb37);
    RotateInjective(a, b, 11);
    XorCancels(g, u, h, v);
    if g == h {
      TimesInjective(x, y, PRIME5, 0xc592c09fdfba7f0d);
    }
  }

  // ---------- what the hash tells apart ----------

  /** For a fixed tail, different states stay different. */
  lemma {:induction false} TailKeepsApart(s: seq<Byte>, g: Word, h: Word)
    requires g != h
    ensures Tail(s, g) != Tail(s, h)
    decreases |s|
  {
    hide LaneStep, HalfStep, ByteStep, Lane, Half;
    if |s| >= 8 {
      var g1, h1 := LaneStep(g, Lane(s, 0)), LaneStep(h, Lane(s, 0));
      if g1 == h1 {
        LaneStepInjective(g, Lane(s, 0), h, Lane(s, 0));
      }
      TailKeepsApart(s[8..], g1, h1);
    } else if |s| >= 4 {
      var g1, h1 := HalfStep(g, Half(s, 0)), HalfStep(h, Half(s, 0));
      if g1 == h1 {
        HalfStepInjective(g, Half(s, 0), h, Half(s, 0));
      }
      TailKeepsApart(s[4..], g1, h1);
    } else if |s| >= 1 {
      var g1, h1 := ByteStep(g, s[0]), ByteStep(h, s[0]);
      if g1 == h1 {
        ByteStepInjective(g, s[0], h, s[0]);
      }
      TailKeepsApart(s[1..], g1, h1);
    }
  }

  /** Length of the unit read first from a tail. */
  function Unit(n: nat): nat {
    if n >= 8 then 8 else if n >= 4 then 4 else if n >= 1 then 1 else 0
  }

  /** The tails are equal but for one unit: an 8-byte lane, the 4-byte lane or a byte. */
  ghost predicate OneUnitDiffers(s: seq<Byte>, t: seq<Byte>)
    decreases |s|
  {
    && |s| == |t| > 0
    && var u := Unit(|s|);
       if s[..u] != t[..u] then s[u..] == t[u..] else OneUnitDiffers(s[u..], t[u..])
  }

  /** One step of the tail, whatever its unit. */
  function UnitStep(s: seq<Byte>, h: Word): Word
    requires s != []
  {
    if |s| >= 8 then LaneStep(h, Lane(s, 0)) else if |s| >= 4 then HalfStep(h, Half(s, 0)) else ByteStep(h, s[0])
  }

  lemma UnitStepTellsApart(s: seq<Byte>, t: seq<Byte>, h: Word)
    requires |s| == |t| > 0 && UnitStep(s, h) == UnitStep(t, h)
    ensures s[..Unit(|s|)] == t[..Unit(|s|)]
  {
    hide LaneStep, HalfStep, ByteStep, Little;
    if |s| >= 8 {
      LaneStepInjective(h, Lane(s, 0), h, Lane(t, 0));
      LittleInjective(s[0..8], t[0..8]);
    } else if |s| >= 4 {
      HalfStepInjective(h, Half(s, 0), h, Half(t, 0));
      LittleInjective(s[0..4], t[0..4]);
    } else {
      ByteStepInjective(h, s[0], h, t[0]);
    }
  }

  lemma UnitStepAgrees(s: seq<Byte>, t: seq<Byte>, h: Word)
    requires |s| == |t| > 0 && s[..Unit(|s|)] == t[..Unit(|s|)]
    ensures UnitStep(s, h) == UnitStep(t, h)
  {
    hide LaneStep, HalfStep, ByteStep, Little;
    var u := Unit(|s|);
    assert s[0] == s[..u][0] == t[0];
    assert s[0..u] == s[..u] && t[0..u] == t[..u];
  }

  lemma {:induction false} TailTellsApart(s: seq<Byte>, t: seq<Byte>, h: Word)
    requires OneUnitDiffers(s, t)
    ensures Tail(s, h) != Tail(t, h)
    decreases |s|
  {
    hide LaneStep, HalfStep, ByteStep, Lane, Half;
    var u := Unit(|s|);
    assert Tail(s, h) == Tail(s[u..], UnitStep(s, h)) && Tail(t, h) == Tail(t[u..], UnitStep(t, h));
    if s[..u] != t[..u] {
      if UnitStep(s, h) == UnitStep(t, h) {
        UnitStepTellsApart(s, t, h);
      }
      TailKeepsApart(s[u..], UnitStep(s, h), UnitStep(t, h));
    } else {
      UnitStepAgrees(s, t, h);
      TailTellsApart(s[u..], t[u..], UnitStep(s, h));
    }
  }

  lemma FirstStripeAgrees(s: seq<Byte>, t: seq<Byte>, k: nat)
    requires 32 <= k <= |s| == |t| && s[..k] == t[..k]
    ensures Lane(s, 0) == Lane(t, 0) && Lane(s, 8) == Lane(t, 8)
    ensures Lane(s, 16) == Lane(t, 16) && Lane(s, 24) == Lane(t, 24)
  {
    LaneAgrees(s, t, k, 0);
    LaneAgrees(s, t, k, 8);
    LaneAgrees(s, t, k, 16);
    LaneAgrees(s, t, k, 24);
  }

  lemma LaneAgrees(s: seq<Byte>, t: seq<Byte>, k: nat, i: nat)
    requires i + 8 <= k <= |s| == |t| && s[..k] == t[..k]
    ensures Lane(s, i) == Lane(t, i)
  {
    hide Little;
    assert s[i..i + 8] == s[..k][i..i + 8] == t[i..i + 8];
  }

  lemma {:induction false} StripesIgnoreTail(s: seq<Byte>, t: seq<Byte>, a: Accumulators)
    requires |s| == |t| && s[..TailStart(|s|)] == t[..TailStart(|s|)]
    ensures Stripes(s, a) == Stripes(t, a)
    decreases |s|
  {
    hide Mix, Lane;
    if |s| >= 32 {
      var k := TailStart(|s|);
      FirstStripeAgrees(s, t, k);
      assert s[32..][..k - 32] == s[..k][32..] == t[32..][..k - 32];
      StripesIgnoreTail(s[32..], t[32..], Accumulators(
        Mix(a.v1, Lane(s, 0)), Mix(a.v2, Lane(s, 8)), Mix(a.v3, Lane(s, 16)), Mix(a.v4, Lane(s, 24))));
    }
  }

  /** Equal-length inputs that agree on all stripes and differ in exactly one unit of
      the tail have different hashes, for every seed. */
  lemma HashTellsUnitsApart(s: seq<Byte>, t: seq<Byte>, seed: int)
    requires |s| == |t| && s[..TailStart(|s|)] == t[..TailStart(|s|)]
    requires OneUnitDiffers(s[TailStart(|s|)..], t[TailStart(|s|)..])
    ensures XXH64(s, seed) != XXH64(t, seed)
  {
    hide Converge, Start, Tail, Finish, Plus;
    var k := TailStart(|s|);
    StripesIgnoreTail(s, t, Start(seed));
    var h := BeforeTail(s, seed);
    assert BeforeTail(t, seed) == h;
    TailTellsApart(s[k..], t[k..], h);
    if Finish(Tail(s[k..], h)) == Finish(Tail(t[k..], h)) {
      FinishInjective(Tail(s[k..], h), Tail(t[k..], h));
    }
  }

  lemma StateTellsSeedsApart(s: seq<Byte>, seed1: int, seed2: int)
    ensures seed1 % WORDS == seed2 % WORDS ==> BeforeTail(s, seed1) == BeforeTail(s, seed2)
    ensures |s| < 32 && BeforeTail(s, seed1) == BeforeTail(s, seed2) ==> seed1 % WORDS == seed2 % WORDS
  {
    hide Plus, Start, Converge, Stripes;
    if seed1 % WORDS == seed2 % WORDS {
      SameStart(seed1, seed2);
    } else if |s| < 32 && BeforeTail(s, seed1) == BeforeTail(s, seed2) {
      PlusInjective(Plus(seed1, PRIME5), Plus(seed2, PRIME5), |s|);
      PlusCancels(seed1, seed2, PRIME5);
    }
  }

  lemma PlusCancels(a: int, b: int, c: int)
    requires Plus(a, c) == Plus(b, c)
    ensures a % WORDS == b % WORDS
  {
    PlusModulo(a + c, b + c, 0 - c);
  }

  /** The seed counts modulo 2^64 only; below one stripe it counts in full. */
  lemma HashTellsSeedsApart(s: seq<Byte>, seed1: int, seed2: int)
    ensures seed1 % WORDS == seed2 % WORDS ==> XXH64(s, seed1) == XXH64(s, seed2)
    ensures |s| < 32 && seed1 % WORDS != seed2 % WORDS ==> XXH64(s, seed1) != XXH64(s, seed2)
  {
    hide Tail, Finish, BeforeTail;
    var g, h, tail := BeforeTail(s, seed1), BeforeTail(s, seed2), s[TailStart(|s|)..];
    StateTellsSeedsApart(s, seed1, seed2);
    if g != h {
      TailKeepsApart(tail, g, h);
      if XXH64(s, seed1) == XXH64(s, seed2) {
        FinishInjective(Tail(tail, g), Tail(tail, h));
      }
    }
  }

  lemma SameStart(seed1: int, seed2: int)
    requires seed1 % WORDS == seed2 % WORDS
    ensures Start(seed1) == Start(seed2) && Plus(seed1, PRIME5) == Plus(seed2, PRIME5)
  {
    hide Plus;
    PlusModulo(seed1, seed2, PRIME1);
    PlusModulo(seed1, seed2, PRIME2);
    PlusModulo(seed1, seed2, PRIME5);
    PlusModulo(seed1, seed2, 0);
    PlusModulo(seed1, seed2, 0 - PRIME1);
    MinusIsPlus(seed1, PRIME1);
    MinusIsPlus(seed2, PRIME1);
  }
}
