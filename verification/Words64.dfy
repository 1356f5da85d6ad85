/** Arithmetic modulo 2^64, and the unbounded-integer operations that stand for it.

    The program computes on unbounded integers: every sum, product and rotation is cut
    back to 64 bits by a mask, and words are put together from bytes by shifts and ors.
    Each such operation is proved to be its counterpart modulo 2^64. */
module Words64 {

  // ---------- words modulo 2^64 ----------

  /** How many words there are. */
  const WORDS: nat := 0x1_0000_0000_0000_0000

  type Word = w: nat | w < WORDS
  type Byte = b: nat | b < 256

  function Pow2(n: nat): (p: nat)
    ensures p > 0
  {
    if n == 0 then 1 else 2 * Pow2(n - 1)
  }

  lemma {:induction false} PowAdd(m: nat, n: nat)
    ensures Pow2(m + n) == Pow2(m) * Pow2(n)
  {
    if m > 0 {
      PowAdd(m - 1, n);
      TimesTwo(Pow2(m - 1), Pow2(n));
    }
  }

  lemma TimesTwo(a: nat, b: nat)
    ensures (2 * a) * b == 2 * (a * b)
  {
  }

  lemma EightBits()
    ensures Pow2(8) == 256
  {
    assert Pow2(4) == 16;
    PowAdd(4, 4);
  }

  lemma SixtyFourBits()
    ensures Pow2(64) == WORDS
  {
    hide Pow2;
    EightBits();
    PowAdd(8, 8);
    PowAdd(16, 16);
    PowAdd(32, 32);
  }

  // addition and multiplication modulo 2^64
  function Plus(a: int, b: int): Word { (a + b) % WORDS }

  function Times(a: nat, b: nat): Word { (a * b) % WORDS }

  /** The `n` high bits move to the low end. */
  function Rotate(v: Word, n: nat): Word
    requires 0 < n < 64
  {
    (v * Pow2(n) + v / Pow2(64 - n)) % WORDS
  }

  /** Exclusive or, bit by bit. */
  function Xor(a: nat, b: nat): nat {
    if a == 0 && b == 0 then 0 else 2 * Xor(a / 2, b / 2) + (a + b) % 2
  }

  lemma {:induction false} XorBound(a: nat, b: nat, n: nat)
    requires a < Pow2(n) && b < Pow2(n)
    ensures Xor(a, b) < Pow2(n)
  {
    if n > 0 {
      XorBound(a / 2, b / 2, n - 1);
    }
  }

  function XorWords(a: Word, b: Word): Word {
    SixtyFourBits();
    XorBound(a, b, 64);
    Xor(a, b)
  }

  /** The number with these base-256 digits, least significant first. */
  function Little(s: seq<Byte>): nat {
    if s == [] then 0 else s[0] + 256 * Little(s[1..])
  }

  lemma {:induction false} LittleBound(s: seq<Byte>)
    ensures Little(s) < Pow2(8 * |s|)
  {
    if s != [] {
      LittleBound(s[1..]);
      PowAdd(8, 8 * (|s| - 1));
      EightBits();
    }
  }

  lemma LittleWord(s: seq<Byte>)
    requires |s| <= 8
    ensures Little(s) < WORDS
  {
    hide Pow2;
    SixtyFourBits();
    LittleBound(s);
    PowAdd(8 * |s|, 64 - 8 * |s|);
    assert Pow2(8 * |s|) * Pow2(64 - 8 * |s|) >= Pow2(8 * |s|);
  }

  /** The 8 and the 4 bytes from `i` on, least significant first. */
  function Lane(s: seq<Byte>, i: nat): Word
    requires i + 8 <= |s|
  {
    LittleWord(s[i..i + 8]);
    Little(s[i..i + 8])
  }

  function Half(s: seq<Byte>, i: nat): Word
    requires i + 4 <= |s|
  {
    LittleWord(s[i..i + 4]);
    Little(s[i..i + 4])
  }

  // ---------- quotients ----------

  lemma {:induction false} ProductGrows(a: nat, p: nat)
    requires p > 0
    ensures a * p >= a
  {
    if p > 1 {
      ProductGrows(a, p - 1);
      assert a * p == a * (p - 1) + a;
    }
  }

  /** Quotient and remainder are determined. */
  lemma QuotientIs(a: int, d: nat, q: int, r: nat)
    requires a == q * d + r && r < d
    ensures a / d == q && a % d == r
  {
    var k, m := a / d, a % d;
    assert a == k * d + m;
    assert (k - q) * d == k * d - q * d;
    if k > q {
      ProductGrows(d, k - q);
    } else if k < q {
      ProductGrows(d, q - k);
    }
  }

  lemma QuotientSmaller(h: nat, p: nat)
    requires p > 0
    ensures h / p <= h
  {
    var k := h / p;
    assert k * p <= h;
    ProductGrows(k, p);
  }

  lemma QuotientBelow(v: nat, p: nat, q: nat)
    requires 0 < p && v < q * p
    ensures v / p < q
  {
    var k := v / p;
    assert k * p <= v;
    assert k >= q ==> k * p >= q * p;
  }

  lemma QuotientAndRemainder(m: nat, w: nat)
    requires w > 0
    ensures m == (m / w) * w + m % w
  {
  }

  lemma HalfMod(a: int, p: nat)
    requires p > 0
    ensures a % (2 * p) == 2 * ((a / 2) % p) + a % 2
  {
    var q, r := (a / 2) / p, (a / 2) % p;
    assert a / 2 == q * p + r;
    assert a == q * (2 * p) + (2 * r + a % 2);
    QuotientIs(a, 2 * p, q, 2 * r + a % 2);
  }

  lemma HalfQuotient(x: nat, p: nat)
    requires p > 0
    ensures (x / p) / 2 == (x / 2) / p && x / (2 * p) == (x / 2) / p
  {
    var a, s := (x / 2) / p, (x / 2) % p;
    var ap, low := a * p, 2 * s + x % 2;
    assert x == 2 * ap + low && low < 2 * p;
    assert a * (2 * p) == 2 * ap && (2 * a) * p == 2 * ap && (2 * a + 1) * p == 2 * ap + p;
    QuotientIs(x, 2 * p, a, low);
    QuotientIs(x, p, if low < p then 2 * a else 2 * a + 1, if low < p then low else low - p);
  }

  // ---------- the integer operations of the program ----------

  /** The mask. */
  const M: nat := 0xffff_ffff_ffff_ffff

  /** The `&` of unbounded integers; a negative one is an endless row of ones. */
  function And(a: int, b: nat): nat
    decreases b
  {
    if b == 0 then 0 else 2 * And(a / 2, b / 2) + (a % 2) * (b % 2)
  }

  function Or(a: nat, b: nat): nat {
    if a == 0 && b == 0 then 0 else 2 * Or(a / 2, b / 2) + (if a % 2 == 1 || b % 2 == 1 then 1 else 0)
  }

  function Shl(v: nat, n: nat): nat { v * Pow2(n) }

  function Shr(v: nat, n: nat): nat {
    hide Pow2;
    v / Pow2(n)
  }

  lemma {:induction false} AndOnes(a: int, n: nat)
    ensures And(a, Pow2(n) - 1) == a % Pow2(n)
    decreases n
  {
    if n > 0 {
      AndOnes(a / 2, n - 1);
      assert (Pow2(n) - 1) / 2 == Pow2(n - 1) - 1;
      HalfMod(a, Pow2(n - 1));
    }
  }

  /** The mask is the remainder modulo 2^64. */
  lemma MaskIsRemainder(a: int)
    ensures And(a, M) == a % WORDS
  {
    hide And, Pow2;
    SixtyFourBits();
    AndOnes(a, 64);
  }

  lemma OrStep(a: nat, b: nat)
    ensures Or(a, b) == 2 * Or(a / 2, b / 2) + (if a % 2 == 1 || b % 2 == 1 then 1 else 0)
  {
  }

  lemma ShlStep(v: nat, n: nat)
    requires n > 0
    ensures Shl(v, n) == 2 * Shl(v, n - 1)
  {
    assert v * (2 * Pow2(n - 1)) == 2 * (v * Pow2(n - 1));
  }

  lemma {:induction false} OrZero(a: nat)
    ensures Or(0, a) == a == Or(a, 0)
  {
    if a != 0 {
      OrZero(a / 2);
    }
  }

  /** Where no bits meet, or is plus. */
  lemma {:induction false} OrApart(low: nat, high: nat, n: nat)
    requires low < Pow2(n)
    ensures Or(low, Shl(high, n)) == low + Shl(high, n) == Or(Shl(high, n), low)
  {
    hide Or, Shl;
    if n == 0 {
      OrZero(Shl(high, n));
    } else {
      OrApart(low / 2, high, n - 1);
      ShlStep(high, n);
      OrStep(low, Shl(high, n));
      OrStep(Shl(high, n), low);
    }
  }

  function Mul(a: nat, b: nat): (r: Word)
    ensures r == Times(a, b)
  {
    hide And;
    MaskIsRemainder(a * b);
    And(a * b, M)
  }

  function Add(a: int, b: int): (r: Word)
    ensures r == Plus(a, b)
  {
    hide And;
    MaskIsRemainder(a + b);
    And(a + b, M)
  }

  /** The shifted-out bits fill the place the shift has freed. */
  lemma HighBits(v: Word, n: nat)
    requires 0 < n < 64
    ensures v / Pow2(64 - n) < Pow2(n)
  {
    hide Pow2;
    SixtyFourBits();
    PowAdd(n, 64 - n);
    QuotientBelow(v, Pow2(64 - n), Pow2(n));
  }

  lemma RotlIsRotate(v: Word, n: nat)
    requires 0 < n < 64
    ensures And(Or(Shl(v, n), Shr(v, 64 - n)), M) == Rotate(v, n)
  {
    hide And, Or, Pow2;
    HighBits(v, n);
    OrApart(Shr(v, 64 - n), v, n);
    MaskIsRemainder(Or(Shl(v, n), Shr(v, 64 - n)));
  }

  function Rotl(v: Word, n: nat): (r: Word)
    requires 0 < n < 64
    ensures r == Rotate(v, n)
  {
    hide And, Or, Shl, Shr, Rotate;
    RotlIsRotate(v, n);
    And(Or(Shl(v, n), Shr(v, 64 - n)), M)
  }

  /** `(a ^ b) & M` */
  function MaskedXor(a: Word, b: Word): (r: Word)
    ensures r == XorWords(a, b)
  {
    hide And, Xor;
    MaskIsRemainder(XorWords(a, b));
    And(Xor(a, b), M)
  }

  lemma {:induction false} LittleSnoc(s: seq<Byte>, b: Byte)
    ensures Little(s + [b]) == Little(s) + Shl(b, 8 * |s|)
  {
    if s == [] {
      assert s + [b] == [b];
    } else {
      assert (s + [b])[1..] == s[1..] + [b];
      LittleSnoc(s[1..], b);
      PowAdd(8, 8 * (|s| - 1));
      EightBits();
      var p := Pow2(8 * (|s| - 1));
      assert b * (256 * p) == 256 * (b * p);
    }
  }

  /** One more byte is or-ed in above the others. */
  lemma OrByte(s: seq<Byte>, i: nat, k: nat)
    requires i + k < |s|
    ensures Or(Little(s[i..i + k]), Shl(s[i + k], 8 * k)) == Little(s[i..i + k + 1])
  {
    hide Or, Little, Pow2;
    LittleBound(s[i..i + k]);
    OrApart(Little(s[i..i + k]), s[i + k], 8 * k);
    LittleSnoc(s[i..i + k], s[i + k]);
    assert s[i..i + k + 1] == s[i..i + k] + [s[i + k]];
  }

  lemma FirstByte(s: seq<Byte>, i: nat)
    requires i < |s|
    ensures Little(s[i..i + 1]) == s[i]
  {
    assert s[i..i + 1] == [s[i]];
  }

  lemma U32leIsHalf(s: seq<Byte>, i: nat)
    requires i + 4 <= |s|
    ensures Or(Or(Or(s[i], Shl(s[i + 1], 8)), Shl(s[i + 2], 16)), Shl(s[i + 3], 24)) == Half(s, i)
  {
    hide Or, Shl, Little;
    FirstByte(s, i);
    OrByte(s, i, 1);
    OrByte(s, i, 2);
    OrByte(s, i, 3);
  }

  lemma U64leIsLane(s: seq<Byte>, i: nat)
    requires i + 8 <= |s|
    ensures Or(Or(Or(Or(Or(Or(Or(s[i], Shl(s[i + 1], 8)), Shl(s[i + 2], 16)), Shl(s[i + 3], 24)),
                            Shl(s[i + 4], 32)), Shl(s[i + 5], 40)), Shl(s[i + 6], 48)), Shl(s[i + 7], 56)) == Lane(s, i)
  {
    hide Or, Shl, Little;
    U32leIsHalf(s, i);
    OrByte(s, i, 4);
    OrByte(s, i, 5);
    OrByte(s, i, 6);
    OrByte(s, i, 7);
  }

  function U32le(buf: array<Byte>, i: nat): (w: Word)
    requires i + 4 <= buf.Length
    reads buf
    ensures w == Half(buf[..], i)
  {
    U32leIsHalf(buf[..], i);
    Or(Or(Or(buf[i], Shl(buf[i + 1], 8)), Shl(buf[i + 2], 16)), Shl(buf[i + 3], 24))
  }

  function U64le(buf: array<Byte>, i: nat): (w: Word)
    requires i + 8 <= buf.Length
    reads buf
    ensures w == Lane(buf[..], i)
  {
    U64leIsLane(buf[..], i);
    Or(Or(Or(Or(Or(Or(Or(buf[i], Shl(buf[i + 1], 8)), Shl(buf[i + 2], 16)), Shl(buf[i + 3], 24)),
                   Shl(buf[i + 4], 32)), Shl(buf[i + 5], 40)), Shl(buf[i + 6], 48)), Shl(buf[i + 7], 56))
  }

  // ---------- every operation can be undone ----------

  /** `w` divides `(x - y) * p`, and `p` has an inverse, so `w` divides `x - y`. */
  lemma Cancel(d: int, p: nat, q: nat, k: int, c: nat, w: nat)
    requires d * p == k * w && p * q == c * w + 1
    ensures d == (k * q - d * c) * w
  {
    assert d * (p * q) == (d * p) * q;
    assert d * (c * w + 1) == (d * c) * w + d;
    assert (k * w) * q == (k * q) * w;
  }

  lemma EqualRemainders(u: nat, v: nat, w: nat)
    requires w > 0 && u % w == v % w
    ensures u - v == (u / w - v / w) * w
  {
    var k, m := u / w, v / w;
    assert u == k * w + u % w && v == m * w + v % w;
    assert (k - m) * w == k * w - m * w;
  }

  lemma SmallMultiple(x: nat, y: nat, m: int, w: nat)
    requires x < w && y < w && x - y == m * w
    ensures x == y
  {
    QuotientIs(x, w, m, y);
    QuotientIs(x, w, 0, x);
  }

  lemma Distribute(x: int, y: int, p: int)
    ensures (x - y) * p == x * p - y * p
  {
  }

  lemma CancelProducts(x: nat, y: nat, p: nat, q: nat, w: nat, u: nat, v: nat, c: nat)
    requires x < w && y < w && u == x * p && v == y * p && u % w == v % w && p * q == c * w + 1
    ensures x == y
  {
    var k := u / w - v / w;
    EqualRemainders(u, v, w);
    Distribute(x, y, p);
    Cancel(x - y, p, q, k, c, w);
    SmallMultiple(x, y, k * q - (x - y) * c, w);
  }

  /** A factor with an inverse modulo 2^64 can be cancelled. */
  lemma TimesInjective(x: Word, y: Word, p: nat, q: nat)
    requires (p * q) % WORDS == 1 && Times(x, p) == Times(y, p)
    ensures x == y
  {
    QuotientAndRemainder(p * q, WORDS);
    CancelProducts(x, y, p, q, WORDS, x * p, y * p, p * q / WORDS);
  }

  lemma RotateParts(v: Word, n: nat)
    requires 0 < n < 64
    ensures var p, q := Pow2(n), Pow2(64 - n);
      Rotate(v, n) / p == v % q && Rotate(v, n) % p == v / q
  {
    hide Pow2;
    SixtyFourBits();
    PowAdd(n, 64 - n);
    HighBits(v, n);
    TurnedParts(v, Pow2(n), Pow2(64 - n));
  }

  lemma TurnedParts(v: Word, p: nat, q: nat)
    requires p > 0 && q > 0 && p * q == WORDS && v / q < p
    ensures var r := (v * p + v / q) % WORDS; r / p == v % q && r % p == v / q
  {
    var h, l := v / q, v % q;
    MovedUp(h, l, p, q);
    QuotientIs(v * p + h, WORDS, h, l * p + h);
    QuotientIs(l * p + h, p, l, h);
  }

  lemma MovedUp(h: nat, l: nat, p: nat, q: nat)
    requires h < p && l < q
    ensures (h * q + l) * p + h == h * (p * q) + (l * p + h) && l * p + h < p * q
  {
    assert (h * q + l) * p == (h * q) * p + l * p;
    assert (h * q) * p == h * (p * q);
    assert q * p == l * p + (q - l) * p;
    ProductGrows(p, q - l);
  }

  lemma RotateInjective(x: Word, y: Word, n: nat)
    requires 0 < n < 64 && Rotate(x, n) == Rotate(y, n)
    ensures x == y
  {
    hide Pow2, Rotate;
    RotateParts(x, n);
    RotateParts(y, n);
    var q := Pow2(64 - n);
    assert x == (x / q) * q + x % q && y == (y / q) * q + y % q;
  }

  lemma XorStep(a: nat, b: nat)
    ensures Xor(a, b) / 2 == Xor(a / 2, b / 2) && Xor(a, b) % 2 == (a + b) % 2
  {
  }

  lemma ShrStep(x: nat, n: nat)
    requires n > 0
    ensures Shr(x, n) / 2 == Shr(x / 2, n) && Shr(x, n) == Shr(x / 2, n - 1)
  {
    HalfQuotient(x, Pow2(n));
    HalfQuotient(x, Pow2(n - 1));
  }

  /** A number can be read back from its exclusive or with its own higher bits. */
  lemma {:induction false} XorOwnHighBits(x: nat, y: nat, n: nat)
    requires n > 0 && Xor(x, Shr(x, n)) == Xor(y, Shr(y, n))
    ensures x == y
    decreases x + y
  {
    hide Xor, Shr;
    if x > 0 || y > 0 {
      XorStep(x, Shr(x, n));
      XorStep(y, Shr(y, n));
      ShrStep(x, n);
      ShrStep(y, n);
      XorOwnHighBits(x / 2, y / 2, n);
    }
  }

  lemma {:induction false} XorSymmetric(a: nat, b: nat)
    ensures Xor(a, b) == Xor(b, a)
  {
    if a > 0 || b > 0 {
      XorSymmetric(a / 2, b / 2);
    }
  }

  lemma {:induction false} XorInjective(a: nat, b: nat, c: nat)
    requires Xor(a, b) == Xor(a, c)
    ensures b == c
    decreases b + c
  {
    hide Xor;
    XorStep(a, b);
    XorStep(a, c);
    if b > 0 || c > 0 {
      XorInjective(a / 2, b / 2, c / 2);
    }
  }

  lemma XorCancels(g: Word, x: Word, h: Word, y: Word)
    requires XorWords(g, x) == XorWords(h, y)
    ensures g == h <==> x == y
  {
    hide Xor;
    if g == h {
      XorInjective(g, x, y);
    } else if x == y {
      XorSymmetric(g, x);
      XorSymmetric(h, x);
      XorInjective(x, g, h);
    }
  }

  lemma PlusInjective(x: Word, y: Word, c: int)
    requires Plus(x, c) == Plus(y, c)
    ensures x == y
  {
  }

  lemma {:induction false} LittleInjective(s: seq<Byte>, t: seq<Byte>)
    requires |s| == |t| && Little(s) == Little(t)
    ensures s == t
  {
    if s != [] {
      LittleInjective(s[1..], t[1..]);
      assert s == [s[0]] + s[1..] && t == [t[0]] + t[1..];
    }
  }

  lemma PlusModulo(a: int, b: int, c: int)
    requires a % WORDS == b % WORDS
    ensures Plus(a, c) == Plus(b, c)
  {
    var k := a / WORDS - b / WORDS + (b + c) / WORDS;
    assert a + c == k * WORDS + (b + c) % WORDS;
    QuotientIs(a + c, WORDS, k, (b + c) % WORDS);
  }

  lemma MinusIsPlus(a: int, c: int)
    ensures Plus(a - c, 0) == Plus(a, 0 - c)
  {
  }

  lemma PlusFromZero(v: Word)
    ensures Plus(0, v) == v
  {
  }

  lemma PlusZero(a: int)
    ensures Plus(a, 0) == a % WORDS
  {
  }
}
