/** Fixed-width machine words: the integer types, casts, byte orders and bitwise
    operators the program relies on. Every wrap-around is written out. */
module Words {

  type byte = x: int | 0 <= x < 0x100
  type uint32 = x: int | 0 <= x < 0x1_0000_0000
  type uint64 = x: int | 0 <= x < 0x1_0000_0000_0000_0000
  type int64 = x: int | -0x8000_0000_0000_0000 <= x < 0x8000_0000_0000_0000

  const INT32_MAX := 0x7fff_ffff
  const INT32_MIN := -0x8000_0000
  const UINT32_MAX := 0xffff_ffff

  /** `static_cast<uint64_t>` of a signed value. */
  function ToU64(x: int64): uint64 {
    if x < 0 then x + 0x1_0000_0000_0000_0000 else x
  }

  /** `static_cast<int64_t>` of an unsigned value. */
  function ToI64(x: uint64): int64 {
    if x < 0x8000_0000_0000_0000 then x else x - 0x1_0000_0000_0000_0000
  }

  /** `static_cast<int32_t>` of an unsigned value. */
  function ToI32(x: uint32): int {
    if x < 0x8000_0000 then x else x - 0x1_0000_0000
  }

  /** `static_cast<int>` of a size: the low 32 bits, read as signed. */
  function CastI32(x: nat): int {
    ToI32(x % 0x1_0000_0000)
  }

  /** The cast keeps what fits and never gives more than it was given. */
  lemma CastKeeps(x: nat)
    ensures CastI32(x) <= x && (FitsI32(x) ==> CastI32(x) == x)
  {
  }

  predicate FitsI32(x: int) {
    INT32_MIN <= x <= INT32_MAX
  }

  /** A number fits 32 signed bits exactly if the cast to 32 bits and back keeps it. */
  lemma FitsExactlyIfKept(x: int)
    ensures FitsI32(x) <==> ToI32(x % 0x1_0000_0000) == x
  {
  }

  // ----- little-endian byte sequences -----

  /** The unsigned value of a little-endian byte sequence. */
  function LE(bs: seq<byte>): nat {
    if bs == [] then 0 else bs[0] + 0x100 * LE(bs[1..])
  }

  /** The two's-complement value of a little-endian byte sequence: only the most
      significant byte carries a sign. */
  function SignedLE(bs: seq<byte>): int
    requires bs != []
  {
    if |bs| == 1 then
      if bs[0] < 0x80 then bs[0] else bs[0] - 0x100
    else
      bs[0] + 0x100 * SignedLE(bs[1..])
  }

  function Pow256(n: nat): (p: nat)
    ensures p > 0
  {
    if n == 0 then 1 else 0x100 * Pow256(n - 1)
  }

  lemma {:induction false} LEBound(bs: seq<byte>)
    ensures LE(bs) < Pow256(|bs|)
  {
    if bs != [] {
      LEBound(bs[1..]);
    }
  }

  /** Sequences of one length are determined by the value they encode. */
  lemma {:induction false} LEInjective(a: seq<byte>, b: seq<byte>)
    requires |a| == |b|
    ensures LE(a) == LE(b) <==> a == b
  {
    if a != [] {
      LEInjective(a[1..], b[1..]);
      assert a == [a[0]] + a[1..] && b == [b[0]] + b[1..];
    }
  }

  /** The signed reading differs from the unsigned one exactly by the weight of the sign bit. */
  lemma {:induction false} SignedLEValue(bs: seq<byte>)
    requires bs != []
    ensures 2 * LE(bs) < Pow256(|bs|) ==> SignedLE(bs) == LE(bs)
    ensures 2 * LE(bs) >= Pow256(|bs|) ==> SignedLE(bs) == LE(bs) - Pow256(|bs|)
  {
    if |bs| == 1 {
      assert bs[1..] == [] && Pow256(1) == 0x100 * Pow256(0);
    } else {
      SignedLEValue(bs[1..]);
      SignCarries(bs[0], LE(bs[1..]), SignedLE(bs[1..]), Pow256(|bs| - 2));
    }
  }

  /** A byte put below a word does not change which half of its range the word is in. */
  lemma SignCarries(b: byte, rest: nat, signed: int, half: nat)
    requires 2 * rest < 0x100 * half ==> signed == rest
    requires 2 * rest >= 0x100 * half ==> signed == rest - 0x100 * half
    ensures var x, y, range := b + 0x100 * rest, b + 0x100 * signed, 0x1_0000 * half;
      (2 * x < range ==> y == x) && (2 * x >= range ==> y == x - range)
  {
  }

  /** The `n` low bytes of a word, least significant first. */
  function ToLE(x: nat, n: nat): (bs: seq<byte>)
    ensures |bs| == n
  {
    if n == 0 then [] else [x % 0x100] + ToLE(x / 0x100, n - 1)
  }

  lemma {:induction false} LEOfToLE(x: nat, n: nat)
    requires x < Pow256(n)
    ensures LE(ToLE(x, n)) == x
  {
    if n > 0 {
      LEOfToLE(x / 0x100, n - 1);
      assert ToLE(x, n)[1..] == ToLE(x / 0x100, n - 1);
    }
  }

  lemma {:induction false} ToLEOfLE(bs: seq<byte>)
    ensures ToLE(LE(bs), |bs|) == bs
  {
    if bs != [] {
      ToLEOfLE(bs[1..]);
      assert LE(bs) % 0x100 == bs[0] && LE(bs) / 0x100 == LE(bs[1..]);
    }
  }

  lemma Pow256Values()
    ensures Pow256(0) == 1
    ensures Pow256(1) == 0x100
    ensures Pow256(2) == 0x1_0000
    ensures Pow256(4) == 0x1_0000_0000
    ensures Pow256(8) == 0x1_0000_0000_0000_0000
  {
    assert Pow256(3) == 0x100_0000;
    assert Pow256(5) == 0x100_0000_0000;
    assert Pow256(6) == 0x1_0000_0000_0000;
    assert Pow256(7) == 0x100_0000_0000_0000;
  }

  // ----- bitwise operators on two's-complement words -----

  /** Bit `k` of the two's-complement form of `x` (division rounds down). */
  predicate Bit(x: int, k: nat)
    decreases k
  {
    if k == 0 then x % 2 == 1 else Bit(x / 2, k - 1)
  }

  /** Bit `k` has weight 2^k. */
  lemma {:induction false} BitHasWeight(x: int, k: nat)
    ensures Pow2(k) > 0 && (Bit(x, k) <==> x / Pow2(k) % 2 == 1)
    decreases k
  {
    if k > 0 {
      BitHasWeight(x / 2, k - 1);
      DivideTwice(x, Pow2(k - 1));
    }
  }

  lemma DivideTwice(x: int, n: nat)
    requires n > 0
    ensures x / 2 / n == x / (2 * n)
  {
    var q, r := x / 2 / n, x / 2 % n;
    assert x / 2 == q * n + r;
    assert x == 2 * (x / 2) + x % 2;
    assert x == q * (2 * n) + (2 * r + x % 2);
    QuotientIs(x, 2 * n, q, 2 * r + x % 2);
  }

  lemma QuotientIs(x: int, n: nat, q: int, r: int)
    requires n > 0 && x == q * n + r && 0 <= r < n
    ensures x / n == q
  {
    var d := x / n - q;
    assert x == x / n * n + x % n;
    assert d * n == r - x % n;
    MultipleBound(d, n);
  }

  lemma MultipleBound(d: int, n: nat)
    ensures (d >= 1 ==> d * n >= n) && (d <= -1 ==> d * n + n <= 0)
  {
  }

  /** The bit-by-bit combination of `n` low bits and the sign, by `and` or by `or`. */
  function Bitwise(and: bool, x: int, y: int, n: nat): int
    decreases n
  {
    if n == 0 then
      if and then (if x < 0 && y < 0 then -1 else 0) else (if x < 0 || y < 0 then -1 else 0)
    else
      var low := if and then (x % 2) * (y % 2) else if x % 2 + y % 2 > 0 then 1 else 0;
      low + 2 * Bitwise(and, x / 2, y / 2, n - 1)
  }

  function Pow2(n: nat): nat {
    if n == 0 then 1 else 2 * Pow2(n - 1)
  }

  lemma {:induction false} BitwiseRange(and: bool, x: int, y: int, n: nat)
    ensures 0 <= Bitwise(and, x, y, n) + Pow2(n)
    ensures Bitwise(and, x, y, n) < Pow2(n)
    decreases n
  {
    if n > 0 {
      BitwiseRange(and, x / 2, y / 2, n - 1);
    }
  }

  lemma {:induction false} BitwiseBits(and: bool, x: int, y: int, n: nat, k: nat)
    requires k < n
    ensures Bit(Bitwise(and, x, y, n), k) <==> if and then Bit(x, k) && Bit(y, k) else Bit(x, k) || Bit(y, k)
    decreases n
  {
    BitwiseStep(and, x, y, n);
    if k > 0 {
      BitwiseBits(and, x / 2, y / 2, n - 1, k - 1);
    }
  }

  lemma BitwiseStep(and: bool, x: int, y: int, n: nat)
    requires n > 0
    ensures var b := Bitwise(and, x, y, n);
      && b / 2 == Bitwise(and, x / 2, y / 2, n - 1)
      && (b % 2 == 1 <==> if and then x % 2 == 1 && y % 2 == 1 else x % 2 == 1 || y % 2 == 1)
  {
    var low := if and then (x % 2) * (y % 2) else if x % 2 + y % 2 > 0 then 1 else 0;
    assert low == if (if and then x % 2 == 1 && y % 2 == 1 else x % 2 == 1 || y % 2 == 1) then 1 else 0 by {
      assert (x % 2 == 0 || x % 2 == 1) && (y % 2 == 0 || y % 2 == 1);
    }
    DivMod(low, Bitwise(and, x / 2, y / 2, n - 1));
  }

  lemma DivMod(low: int, rest: int)
    requires 0 <= low < 2
    ensures (low + 2 * rest) / 2 == rest && (low + 2 * rest) % 2 == low
  {
  }

  lemma Pow2Small()
    ensures Pow2(4) == 16 && Pow2(7) == 128 && Pow2(8) == 256
  {
    assert Pow2(2) == 4;
    assert Pow2(6) == 4 * Pow2(4);
  }

  lemma Pow2At63()
    ensures Pow2(15) == 0x8000 && Pow2(63) == 0x8000_0000_0000_0000
  {
    hide Pow2;
    Pow2Small();
    Pow2Sum(7, 8);
    Pow2Sum(8, 8);
    Pow2Sum(15, 16);
    Pow2Sum(16, 16);
    Pow2Sum(31, 32);
  }

  lemma {:induction false} Pow2Sum(m: nat, n: nat)
    ensures Pow2(m + n) == Pow2(m) * Pow2(n)
  {
    if m > 0 {
      Pow2Sum(m - 1, n);
      MulAssociates(2, Pow2(m - 1), Pow2(n));
    }
  }

  lemma MulAssociates(a: nat, b: nat, c: nat)
    ensures a * (b * c) == (a * b) * c
  {
  }

  /** The `&` operator on int64_t. */
  function AndI64(x: int64, y: int64): int64 {
    BitwiseRange(true, x, y, 63); Pow2At63();
    Bitwise(true, x, y, 63)
  }

  /** The `|` operator on int64_t. */
  function OrI64(x: int64, y: int64): int64 {
    BitwiseRange(false, x, y, 63); Pow2At63();
    Bitwise(false, x, y, 63)
  }

  /** Each bit of `&` and `|` is the conjunction and the disjunction of the operands' bits, and
      so is the sign. */
  lemma BitsOfAndOr(x: int64, y: int64, k: nat)
    requires k < 63
    ensures Bit(AndI64(x, y), k) <==> Bit(x, k) && Bit(y, k)
    ensures Bit(OrI64(x, y), k) <==> Bit(x, k) || Bit(y, k)
    ensures AndI64(x, y) < 0 <==> x < 0 && y < 0
    ensures OrI64(x, y) < 0 <==> x < 0 || y < 0
  {
    hide Bit, Bitwise;
    BitwiseBits(true, x, y, 63, k);
    BitwiseBits(false, x, y, 63, k);
    BitwiseSign(true, x, y, 63);
    BitwiseSign(false, x, y, 63);
  }

  lemma {:induction false} BitwiseSign(and: bool, x: int, y: int, n: nat)
    ensures Bitwise(and, x, y, n) < 0 <==> if and then x < 0 && y < 0 else x < 0 || y < 0
    decreases n
  {
    if n > 0 {
      BitwiseSign(and, x / 2, y / 2, n - 1);
      BitwiseStep(and, x, y, n);
    }
  }

  /** More bits than two numbers need do not change their combination. */
  lemma {:induction false} BitwiseMore(and: bool, x: int, y: int, n: nat)
    requires 0 <= x + Pow2(n) && x < Pow2(n) && 0 <= y + Pow2(n) && y < Pow2(n)
    ensures Bitwise(and, x, y, n + 1) == Bitwise(and, x, y, n)
    decreases n
  {
    if n == 0 {
      assert Bitwise(and, x / 2, y / 2, 0) == Bitwise(and, x, y, 0);
    } else {
      BitwiseMore(and, x / 2, y / 2, n - 1);
    }
  }

  /** `&` of two truth values is their conjunction. */
  lemma AndOfTruthValues(x: int64, y: int64)
    requires 0 <= x <= 1 && 0 <= y <= 1
    ensures AndI64(x, y) == if x == 1 && y == 1 then 1 else 0
  {
    AndZero(62);
    assert x / 2 == 0 && y / 2 == 0;
    assert Bitwise(true, x, y, 63) == (x % 2) * (y % 2) + 2 * Bitwise(true, 0, 0, 62);
    assert x % 2 == x && y % 2 == y;
    assert x == 0 || x == 1;
  }

  lemma {:induction false} AndZero(n: nat)
    ensures Bitwise(true, 0, 0, n) == 0
  {
    if n > 0 {
      AndZero(n - 1);
    }
  }

  /** A C truth value. */
  function Truth(b: bool): int64 {
    if b then 1 else 0
  }
}
