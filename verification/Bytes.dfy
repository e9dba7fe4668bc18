/** Bytes, big-endian numbers and bytewise exclusive-or. */
module Bytes {

  type byte = x: int | 0 <= x < 256

  function Pow2(n: nat): (p: nat)
    ensures p > 0
  {
    if n == 0 then 1 else 2 * Pow2(n - 1)
  }

  /** Exclusive-or of the low `n` bits. */
  function XorBits(a: nat, b: nat, n: nat): (r: nat)
    ensures r < Pow2(n)
  {
    if n == 0 then 0 else 2 * XorBits(a / 2, b / 2, n - 1) + (a % 2 + b % 2) % 2
  }

  lemma HighAndLow(h: nat, s: nat)
    requires s < 2
    ensures (2 * h + s) / 2 == h && (2 * h + s) % 2 == s
  {
  }

  lemma Pow2Is256()
    ensures Pow2(8) == 256
  {
    assert Pow2(2) == 4;
    assert Pow2(4) == 16;
    assert Pow2(6) == 64;
  }

  function Xor(a: byte, b: byte): byte {
    Pow2Is256();
    XorBits(a, b, 8)
  }

  /** Bit `i` of a number. */
  function Bit(n: nat, i: nat): nat { n / Pow2(i) % 2 }

  lemma DivideTwice(n: nat, p: nat)
    requires p > 0
    ensures n / (2 * p) == n / 2 / p
  {
    var q, r := n / 2 / p, n / 2 % p;
    assert n == 2 * (q * p + r) + n % 2;
    QuotientIs(n, 2 * p, q, 2 * r + n % 2);
  }

  lemma QuotientIs(n: nat, d: nat, q: nat, r: nat)
    requires 0 <= r < d && n == q * d + r
    ensures n / d == q
  {
    assert n == n / d * d + n % d;
    if n / d != q {
      MultipleIsLarge(n / d - q, d);
    }
  }

  lemma MultipleIsLarge(m: int, d: int)
    requires d > 0 && m != 0
    ensures m * d >= d || m * d <= -d
  {
    if m > 0 {
      assert (m - 1) * d >= 0;
    } else {
      assert (-m - 1) * d >= 0;
    }
  }

  lemma BitOfHalf(n: nat, i: nat)
    requires i > 0
    ensures Bit(n, i) == Bit(n / 2, i - 1)
  {
    DivideTwice(n, Pow2(i - 1));
  }

  lemma {:induction false} XorBitsIs(a: nat, b: nat, n: nat, i: nat)
    requires i < n
    ensures Bit(XorBits(a, b, n), i) == 1 <==> Bit(a, i) != Bit(b, i)
  {
    hide Pow2, Bit;
    var r := XorBits(a, b, n);
    HighAndLow(XorBits(a / 2, b / 2, n - 1), (a % 2 + b % 2) % 2);
    if i == 0 {
      LowBit(r);
      LowBit(a);
      LowBit(b);
    } else {
      XorBitsIs(a / 2, b / 2, n - 1, i - 1);
      BitOfHalf(r, i);
      BitOfHalf(a, i);
      BitOfHalf(b, i);
    }
  }

  lemma LowBit(n: nat)
    ensures Bit(n, 0) == n % 2
  {
    assert Pow2(0) == 1;
  }

  lemma {:induction false} BitsTell(a: nat, b: nat, n: nat)
    requires a < Pow2(n) && b < Pow2(n)
    requires forall i: nat :: i < n ==> Bit(a, i) == Bit(b, i)
    ensures a == b
  {
    if n != 0 {
      hide Bit;
      LowBit(a);
      LowBit(b);
      forall i: nat | i < n - 1 ensures Bit(a / 2, i) == Bit(b / 2, i) {
        BitOfHalf(a, i + 1);
        BitOfHalf(b, i + 1);
      }
      BitsTell(a / 2, b / 2, n - 1);
    }
  }

  /** `r` is the exclusive-or of two bytes: each of its bits is set where theirs differ. */
  ghost predicate IsXor(a: byte, b: byte, r: byte) {
    forall i: nat :: i < 8 ==> (Bit(r, i) == 1 <==> Bit(a, i) != Bit(b, i))
  }

  /** Exactly one byte is the exclusive-or bit by bit, and `Xor` computes it. */
  lemma XorIff(a: byte, b: byte, r: byte)
    ensures IsXor(a, b, r) <==> r == Xor(a, b)
  {
    Pow2Is256();
    hide Pow2, Bit;
    forall i: nat | i < 8 ensures Bit(Xor(a, b), i) == 1 <==> Bit(a, i) != Bit(b, i) {
      XorBitsIs(a, b, 8, i);
    }
    if IsXor(a, b, r) {
      forall i: nat | i < 8 ensures Bit(r, i) == Bit(Xor(a, b), i) {
        BitIsBit(r, i);
        BitIsBit(Xor(a, b), i);
      }
      BitsTell(r, Xor(a, b), 8);
    }
  }

  lemma BitIsBit(n: nat, i: nat)
    ensures Bit(n, i) == 0 || Bit(n, i) == 1
  {
  }

  /** Masking a byte twice gives it back. */
  lemma XorTwice(a: byte, b: byte)
    ensures Xor(Xor(a, b), b) == a
  {
    hide Bit, Xor;
    var x := Xor(a, b);
    XorIff(a, b, x);
    forall i: nat | i < 8 ensures Bit(a, i) == 1 <==> Bit(x, i) != Bit(b, i) {
      BitIsBit(a, i);
      BitIsBit(b, i);
      BitIsBit(x, i);
    }
    XorIff(x, b, a);
  }

  /** The number that a sequence of bytes writes, most significant byte first. */
  function Value(s: seq<byte>): nat {
    if s == [] then 0 else 256 * Value(s[..|s| - 1]) + s[|s| - 1]
  }

  function Pow256(k: nat): (p: nat)
    ensures p > 0
  {
    if k == 0 then 1 else 256 * Pow256(k - 1)
  }

  /** The low `k` bytes of a number, most significant byte first. */
  function BigEndian(n: nat, k: nat): (s: seq<byte>)
    ensures |s| == k
  {
    if k == 0 then [] else BigEndian(n / 256, k - 1) + [n % 256]
  }

  lemma {:induction false} ValueOfBigEndian(n: nat, k: nat)
    requires n < Pow256(k)
    ensures Value(BigEndian(n, k)) == n
  {
    if k != 0 {
      ValueOfBigEndian(n / 256, k - 1);
      hide Value;
      ValueSnoc(BigEndian(n / 256, k - 1), n % 256);
    }
  }

  lemma {:induction false} ValueSnoc(s: seq<byte>, b: byte)
    ensures Value(s + [b]) == 256 * Value(s) + b
  {
    assert (s + [b])[..|s|] == s;
  }

  /** The first byte of a number is the most significant one. */
  lemma {:induction false} FirstIsHighest(s: seq<byte>)
    requires s != []
    ensures Value(s) == s[0] * Pow256(|s| - 1) + Value(s[1..])
  {
    if |s| == 1 {
      assert s == [] + [s[0]] && s[1..] == [];
      ValueSnoc([], s[0]);
    } else {
      var front, b := s[..|s| - 1], s[|s| - 1];
      FirstIsHighest(front);
      assert s[1..] == front[1..] + [b] && s == front + [b];
      hide Value;
      ValueSnoc(front[1..], b);
      ValueSnoc(front, b);
      OneMoreDigit(s[0], Pow256(|front| - 1), Value(front[1..]), b);
    }
  }

  lemma OneMoreDigit(x: int, p: int, v: int, b: int)
    ensures 256 * (x * p + v) + b == x * (256 * p) + (256 * v + b)
  {
  }

  /** Writing the number that some bytes write gives them back. */
  lemma {:induction false} BigEndianOfValue(s: seq<byte>)
    ensures Value(s) < Pow256(|s|) && BigEndian(Value(s), |s|) == s
  {
    if s != [] {
      var front, b := s[..|s| - 1], s[|s| - 1];
      BigEndianOfValue(front);
      assert Value(s) / 256 == Value(front) && Value(s) % 256 == b;
      assert s == front + [b];
    }
  }

  lemma PowersOf256()
    ensures Pow256(2) == 0x1_0000 && Pow256(8) == 0x1_0000_0000_0000_0000
  {
    assert Pow256(1) == 0x100;
    assert Pow256(2) == 0x1_0000;
    assert Pow256(4) == 0x1_0000_0000;
    assert Pow256(6) == 0x1_0000_0000_0000;
  }
}
