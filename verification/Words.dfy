/** Fixed-width integers, bitwise AND on non-negative integers, and the
    little-endian byte codec that `struct.pack` and `seccomp_data` use. */
module Words {

  type u8 = x: int | 0 <= x < 0x100
  type u16 = x: int | 0 <= x < 0x1_0000
  type u32 = x: int | 0 <= x < 0x1_0000_0000
  type u64 = x: int | 0 <= x < 0x1_0000_0000_0000_0000
  type i32 = x: int | -0x8000_0000 <= x < 0x8000_0000

  const W32 := 0x1_0000_0000
  const U32_MAX: u32 := 0xFFFF_FFFF
  const U64_MAX: u64 := 0xFFFF_FFFF_FFFF_FFFF

  datatype Option<+T> = None | Some(value: T)

  /** Low and high 32-bit words of a 64-bit value. */
  function Lo(v: u64): u32 { v % W32 }
  function Hi(v: u64): u32 { v / W32 }

  // ---------------------------------------------------------------- bitwise

  /** `x & y` on non-negative integers, one bit at a time. */
  function BitAnd(x: nat, y: nat): (r: nat)
    ensures r <= x && r <= y
  {
    if x == 0 || y == 0 then 0
    else 2 * BitAnd(x / 2, y / 2) + BothOdd(x, y)
  }

  function BothOdd(x: nat, y: nat): nat { if x % 2 == 1 && y % 2 == 1 then 1 else 0 }

  /** `x & ~y` for non-negative x: the bits of x that lie outside y. */
  function AndNot(x: nat, y: nat): (r: nat)
    ensures r <= x
  {
    if x == 0 then 0
    else 2 * AndNot(x / 2, y / 2) + if x % 2 == 1 && y % 2 == 0 then 1 else 0
  }

  /** Every bit of x is either inside y or outside y. */
  lemma {:induction false} AndPartition(x: nat, y: nat)
    ensures BitAnd(x, y) + AndNot(x, y) == x
  {
    if x != 0 {
      AndPartition(x / 2, y / 2);
      if y == 0 { AndPartition(x / 2, 0); }
    }
  }

  /** 2^i. */
  function Pow2(i: nat): (r: nat)
    ensures r > 0
  {
    if i == 0 then 1 else 2 * Pow2(i - 1)
  }

  /** Bit i of v. */
  function Bit(v: nat, i: nat): nat {
    (v / Pow2(i)) % 2
  }

  /** Dividing by 2d is halving and then dividing by d. */
  lemma HalveFirst(v: nat, d: nat)
    requires d > 0
    ensures v / (2 * d) == (v / 2) / d
  {
    var q, r := (v / 2) / d, (v / 2) % d;
    assert v / 2 == q * d + r;
    assert v == 2 * (v / 2) + v % 2;
    assert v == q * (2 * d) + (2 * r + v % 2) by { assert q * (2 * d) == 2 * (q * d); }
    QuotientIs(v, 2 * d, q, 2 * r + v % 2);
  }

  lemma QuotientIs(v: nat, d: nat, q: nat, r: nat)
    requires r < d && v == q * d + r
    ensures v / d == q
  {
    var q', r' := v / d, v % d;
    DivMod(v, d);
    assert (q - q') * d == q * d - q' * d;
    OnlyZero(q - q', d);
  }

  lemma DivMod(v: nat, d: nat)
    requires d > 0
    ensures v == (v / d) * d + v % d && 0 <= v % d < d
  {}

  /** No multiple of d but 0 lies strictly between -d and d. */
  lemma OnlyZero(k: int, d: int)
    requires d > 0 && -d < k * d < d
    ensures k == 0
  {
    MulGrows(k, d);
  }

  lemma {:induction false} MulGrows(k: int, d: int)
    requires d > 0
    ensures k >= 1 ==> k * d >= d
    ensures k <= -1 ==> k * d <= -d
    decreases if k < 0 then -k else k
  {
    if k > 1 {
      MulGrows(k - 1, d);
      assert k * d == (k - 1) * d + d;
    } else if k < -1 {
      MulGrows(k + 1, d);
      assert k * d == (k + 1) * d - d;
    }
  }

  lemma BitZero(v: nat)
    ensures Bit(v, 0) == v % 2
  {}

  lemma BitUp(v: nat, i: nat)
    ensures Bit(v, i + 1) == Bit(v / 2, i)
  {
    HalveFirst(v, Pow2(i));
  }

  /** Bit i of `x & y` is set exactly when bit i of both is. */
  lemma {:induction false} AndBits(x: nat, y: nat, i: nat)
    ensures Bit(BitAnd(x, y), i) == 1 <==> Bit(x, i) == 1 && Bit(y, i) == 1
  {
    var r := BitAnd(x, y);
    AndUnfold(x, y);
    assert r / 2 == BitAnd(x / 2, y / 2) && r % 2 == BothOdd(x, y);
    if i == 0 {
      BitZero(x); BitZero(y); BitZero(r);
    } else {
      AndBits(x / 2, y / 2, i - 1);
      BitUp(x, i - 1); BitUp(y, i - 1); BitUp(r, i - 1);
    }
  }

  /** Bit i of `x & ~y` is set exactly when bit i of x is and bit i of y is not. */
  lemma {:induction false} AndNotBits(x: nat, y: nat, i: nat)
    ensures Bit(AndNot(x, y), i) == 1 <==> Bit(x, i) == 1 && Bit(y, i) == 0
  {
    var r := AndNot(x, y);
    AndNotUnfold(x, y);
    if i == 0 {
      BitZero(x); BitZero(y); BitZero(r);
    } else {
      AndNotBits(x / 2, y / 2, i - 1);
      BitUp(x, i - 1); BitUp(y, i - 1); BitUp(r, i - 1);
    }
  }

  lemma AndNotUnfold(x: nat, y: nat)
    ensures AndNot(x, y) / 2 == AndNot(x / 2, y / 2)
    ensures AndNot(x, y) % 2 == if x % 2 == 1 && y % 2 == 0 then 1 else 0
  {}

  /** A number that is not zero has some bit set. */
  lemma {:induction false} SomeBit(v: nat) returns (i: nat)
    requires v > 0
    ensures Bit(v, i) == 1
  {
    if v % 2 == 1 {
      i := 0;
      BitZero(v);
    } else {
      i := SomeBit(v / 2);
      BitUp(v, i);
      i := i + 1;
    }
  }

  /** Numbers are equal exactly when all their bits are. */
  lemma {:induction false} SameBits(x: nat, y: nat)
    requires forall i: nat :: Bit(x, i) == Bit(y, i)
    ensures x == y
    decreases x + y
  {
    if x + y > 0 {
      BitZero(x);
      BitZero(y);
      assert Bit(x, 0) == Bit(y, 0);
      forall i: nat ensures Bit(x / 2, i) == Bit(y / 2, i) {
        BitUp(x, i);
        BitUp(y, i);
        assert Bit(x, i + 1) == Bit(y, i + 1);
      }
      SameBits(x / 2, y / 2);
    }
  }

  /** Every bit of v is set in m. */
  ghost predicate BitsInside(v: nat, m: nat) {
    forall i: nat :: Bit(v, i) == 1 ==> Bit(m, i) == 1
  }

  /** `v & ~m == 0` says exactly that v's bits lie inside m. */
  lemma InsideExactly(v: nat, m: nat)
    ensures AndNot(v, m) == 0 <==> BitsInside(v, m)
  {
    if AndNot(v, m) == 0 {
      forall i: nat | Bit(v, i) == 1 ensures Bit(m, i) == 1 {
        AndNotBits(v, m, i);
        ZeroBit(i);
      }
    } else {
      var i := SomeBit(AndNot(v, m));
      AndNotBits(v, m, i);
    }
  }

  lemma {:induction false} ZeroBit(i: nat)
    ensures Bit(0, i) == 0
  {
    if i > 0 { BitUp(0, i - 1); ZeroBit(i - 1); }
  }

  /** `x & y` is not zero exactly when some bit is set in both. */
  lemma MeetsExactly(x: nat, y: nat)
    ensures BitAnd(x, y) != 0 <==> exists i: nat :: Bit(x, i) == 1 && Bit(y, i) == 1
  {
    if BitAnd(x, y) != 0 {
      var i := SomeBit(BitAnd(x, y));
      AndBits(x, y, i);
    } else {
      forall i: nat ensures !(Bit(x, i) == 1 && Bit(y, i) == 1) {
        AndBits(x, y, i);
        ZeroBit(i);
      }
    }
  }

  /** `x & m == v`, for v inside m, says that x and v agree on every bit of m. */
  lemma MaskedExactly(x: nat, m: nat, v: nat)
    requires BitsInside(v, m)
    ensures BitAnd(x, m) == v <==> forall i: nat :: Bit(m, i) == 1 ==> Bit(x, i) == Bit(v, i)
  {
    if BitAnd(x, m) == v {
      forall i: nat | Bit(m, i) == 1 ensures Bit(x, i) == Bit(v, i) { AndBits(x, m, i); }
    }
    if forall i: nat :: Bit(m, i) == 1 ==> Bit(x, i) == Bit(v, i) {
      forall i: nat ensures Bit(BitAnd(x, m), i) == Bit(v, i) { AndBits(x, m, i); }
      SameBits(BitAnd(x, m), v);
    }
  }

  /** `x << n`. */
  function Shl(x: nat, n: nat): (r: nat)
    ensures r >= x
  {
    if n == 0 then x else 2 * Shl(x, n - 1)
  }

  lemma {:induction false} ShlTwice(x: nat, n: nat, m: nat)
    ensures Shl(x, n + m) == Shl(Shl(x, n), m)
  {
    if m != 0 { ShlTwice(x, n, m - 1); }
  }

  lemma Shl32(x: nat)
    ensures Shl(x, 32) == W32 * x
  {
    Shl8(x); ShlTwice(x, 8, 8);
    Shl8(0x100 * x); ShlTwice(x, 16, 8);
    Shl8(0x1_0000 * x); ShlTwice(x, 24, 8);
    Shl8(0x100_0000 * x);
  }

  lemma Shl8(x: nat)
    ensures Shl(x, 8) == 0x100 * x
  {
    assert Shl(x, 1) == 2 * x;
    assert Shl(x, 2) == 4 * x;
    assert Shl(x, 3) == 8 * x;
    assert Shl(x, 4) == 16 * x;
    assert Shl(x, 5) == 32 * x;
    assert Shl(x, 6) == 64 * x;
    assert Shl(x, 7) == 128 * x;
  }

  /** The AND of a + x0 and b + y0 is c, from the upper parts, plus that of the lower parts. */
  ghost predicate Independent(a: nat, x0: nat, b: nat, y0: nat, c: nat) {
    BitAnd(a + x0, b + y0) == c + BitAnd(x0, y0)
  }

  /** AND works on the bits above and below any cut independently. */
  lemma {:induction false} AndSplit(n: nat, x1: nat, x0: nat, y1: nat, y0: nat)
    requires x0 < Shl(1, n) && y0 < Shl(1, n)
    ensures Independent(Shl(x1, n), x0, Shl(y1, n), y0, Shl(BitAnd(x1, y1), n))
  {
    if n != 0 {
      AndSplit(n - 1, x1, x0 / 2, y1, y0 / 2);
      AndCut(Shl(x1, n - 1), x0, Shl(y1, n - 1), y0, Shl(BitAnd(x1, y1), n - 1));
    }
  }

  /** Moving the cut up by one bit. */
  lemma AndCut(a: nat, x0: nat, b: nat, y0: nat, c: nat)
    requires Independent(a, x0 / 2, b, y0 / 2, c)
    ensures Independent(2 * a, x0, 2 * b, y0, 2 * c)
  {
    HalfOf(a, x0);
    HalfOf(b, y0);
    AndUnfold(2 * a + x0, 2 * b + y0);
    AndUnfold(x0, y0);
  }

  lemma HalfOf(q: nat, x0: nat)
    ensures (2 * q + x0) / 2 == q + x0 / 2 && (2 * q + x0) % 2 == x0 % 2
  {}

  lemma AndUnfold(x: nat, y: nat)
    ensures BitAnd(x, y) == 2 * BitAnd(x / 2, y / 2) + BothOdd(x, y)
  {}

  lemma JoinWords(h: nat, l: nat)
    requires l < W32
    ensures (W32 * h + l) / W32 == h && (W32 * h + l) % W32 == l
  {}

  lemma WordsOfAnd(x: u64, y: u64, h: nat)
    requires Independent(W32 * Hi(x), Lo(x), W32 * Hi(y), Lo(y), W32 * h)
    ensures Lo(BitAnd(x, y)) == BitAnd(Lo(x), Lo(y)) && Hi(BitAnd(x, y)) == h
  {
    SplitWords(x);
    SplitWords(y);
    var l := BitAnd(Lo(x), Lo(y));
    assert BitAnd(x, y) == W32 * h + l;
    JoinWords(h, l);
  }

  lemma SplitWords(v: u64)
    ensures W32 * Hi(v) + Lo(v) == v
  {}

  /** A 64-bit AND is the two 32-bit ANDs of its words. */
  lemma AndWords(x: u64, y: u64)
    ensures Lo(BitAnd(x, y)) == BitAnd(Lo(x), Lo(y))
    ensures Hi(BitAnd(x, y)) == BitAnd(Hi(x), Hi(y))
  {
    var h := BitAnd(Hi(x), Hi(y));
    Shl32(1);
    Shl32(Hi(x));
    Shl32(Hi(y));
    Shl32(h);
    AndSplit(32, Hi(x), Lo(x), Hi(y), Lo(y));
    WordsOfAnd(x, y, h);
  }

  // ------------------------------------------------------- little endian codec

  /** The n low-order bytes of v, least significant first. */
  function ToLE(v: nat, n: nat): (b: seq<u8>)
    ensures |b| == n
  {
    if n == 0 then [] else [v % 256] + ToLE(v / 256, n - 1)
  }

  function FromLE(b: seq<u8>): nat {
    if b == [] then 0 else b[0] + 256 * FromLE(b[1..])
  }

  /** Two bytes: the remainder by 256, then the quotient. */
  lemma LEBytes2(v: u16)
    ensures ToLE(v, 2) == [v % 0x100, v / 0x100]
  {
    assert ToLE(v / 0x100, 1) == [v / 0x100] + ToLE(0, 0);
  }

  /** Four bytes, each the next quotient by 256. */
  lemma LEBytes4(v: u32)
    ensures ToLE(v, 4) == [v % 0x100, (v / 0x100) % 0x100, (v / 0x1_0000) % 0x100, v / 0x100_0000]
  {
    var a := v / 0x100;
    var b := a / 0x100;
    var c := b / 0x100;
    assert b == v / 0x1_0000 && c == v / 0x100_0000 && c < 0x100;
    assert ToLE(c, 1) == [c] + ToLE(c / 0x100, 0);
    assert ToLE(b, 2) == [b % 0x100] + ToLE(c, 1);
    assert ToLE(a, 3) == [a % 0x100] + ToLE(b, 2);
    assert ToLE(v, 4) == [v % 0x100] + ToLE(a, 3);
  }

  function Pow256(n: nat): (r: nat)
    ensures r > 0
  {
    if n == 0 then 1 else 256 * Pow256(n - 1)
  }

  lemma Pow256Values()
    ensures Pow256(2) == 0x1_0000 && Pow256(4) == W32 && Pow256(8) == 0x1_0000_0000_0000_0000
  {
    assert Pow256(2) == 0x1_0000;
    assert Pow256(4) == W32;
    assert Pow256(6) == 0x1_0000_0000_0000;
  }

  /** Decoding the n-byte encoding recovers the value when it fits. */
  lemma {:induction false} LERoundTrip(v: nat, n: nat)
    requires v < Pow256(n)
    ensures FromLE(ToLE(v, n)) == v
  {
    if n != 0 {
      LERoundTrip(v / 256, n - 1);
      assert ToLE(v, n)[1..] == ToLE(v / 256, n - 1);
    }
  }

  /** Re-encoding any byte string gives the same bytes back. */
  lemma {:induction false} LEInverse(b: seq<u8>)
    ensures FromLE(b) < Pow256(|b|)
    ensures ToLE(FromLE(b), |b|) == b
  {
    if b != [] {
      LEInverse(b[1..]);
      assert (b[0] + 256 * FromLE(b[1..])) % 256 == b[0];
      assert (b[0] + 256 * FromLE(b[1..])) / 256 == FromLE(b[1..]);
    }
  }

  /** `hi * 256^n`. */
  function Scale(hi: nat, n: nat): nat {
    if n == 0 then hi else 256 * Scale(hi, n - 1)
  }

  lemma {:induction false} LESplit(lo: nat, hi: nat, n: nat, m: nat)
    requires lo < Pow256(n)
    ensures ToLE(lo + Scale(hi, n), n + m) == ToLE(lo, n) + ToLE(hi, m)
  {
    if n != 0 {
      var v, p := lo + Scale(hi, n), Scale(hi, n - 1);
      assert v == lo + 256 * p;
      assert v % 256 == lo % 256 && v / 256 == lo / 256 + p;
      LESplit(lo / 256, hi, n - 1, m);
    }
  }

  /** An 8-byte encoding is its low word's 4 bytes followed by its high word's. */
  lemma LEWords(v: u64)
    ensures ToLE(v, 8) == ToLE(Lo(v), 4) + ToLE(Hi(v), 4)
  {
    Pow256Values();
    var h: nat := Hi(v);
    assert Scale(h, 1) == 0x100 * h;
    assert Scale(h, 2) == 0x1_0000 * h;
    assert Scale(h, 3) == 0x100_0000 * h;
    assert Scale(h, 4) == W32 * h;
    LESplit(Lo(v), h, 4, 4);
  }
}
