/** 64-bit two's-complement words and their little-endian byte encoding. */
module Words {

  const TWO63: int := 0x8000_0000_0000_0000
  const TWO64: int := 0x1_0000_0000_0000_0000

  /** The simulator's word_t: a signed 64-bit integer. */
  type Word = x: int | -TWO63 <= x < TWO63

  type Byte = x: int | 0 <= x < 256

  type Nibble = x: int | 0 <= x < 16

  /** The word congruent to x modulo 2^64, which is what 64-bit arithmetic leaves behind. */
  function Wrap(x: int): (w: Word)
    ensures (x - w) % TWO64 == 0
    ensures -TWO63 <= x < TWO63 ==> w == x
  {
    (x + TWO63) % TWO64 - TWO63
  }

  /** Only one word is congruent to a given integer, so Wrap is determined by its contract. */
  lemma WrapUnique(x: int, w: Word)
    requires (x - w) % TWO64 == 0
    ensures Wrap(x) == w
  {
    assert (Wrap(x) - w) % TWO64 == 0;
  }

  /** Addition as the program's 64-bit variables perform it. */
  function WordAdd(x: int, y: int): Word { Wrap(x + y) }

  function HI4(b: Byte): Nibble { b / 16 }

  function LO4(b: Byte): Nibble { b % 16 }

  /** A byte is its high half followed by its low half. */
  lemma HalvesOfByte(b: Byte, hi: Nibble, lo: Nibble)
    ensures HI4(b) == hi && LO4(b) == lo <==> b == 16 * hi + lo
  {}

  // ----- quotients and remainders -----

  lemma DivideTwice(x: int, a: nat, b: nat)
    requires a > 0 && b > 0
    ensures a * b > 0 && x / a / b == x / (a * b)
  {
    var q := x / a / b;
    var r := x / a % b;
    assert x == a * (x / a) + x % a && x / a == b * q + r;
    assert a * (x / a) == a * (b * q) + a * r && a * (b * q) == (a * b) * q;
    var rest := a * r + x % a;
    assert x == (a * b) * q + rest;
    assert 0 <= a * r <= a * (b - 1) && a * (b - 1) == a * b - a;
    QuotientIsUnique(x, a * b, q, rest);
  }

  lemma QuotientIsUnique(x: int, d: nat, q: int, r: int)
    requires 0 <= r < d && x == d * q + r
    ensures x / d == q
  {
    var p, m := x / d, x % d;
    Difference(d, p, q);
    SmallMultiple(d, p - q);
  }

  lemma Difference(d: int, p: int, q: int)
    ensures d * (p - q) == d * p - d * q
  {}

  lemma SmallMultiple(d: int, u: int)
    requires -d < d * u < d
    ensures u == 0
  {
    Multiples(d, u);
  }

  lemma Multiples(d: int, u: int)
    ensures d > 0 && u >= 1 ==> d * u >= d
    ensures d > 0 && u <= -1 ==> d * u <= -d
  {}

  lemma RemainderOfHalf(x: int, p: nat)
    requires p > 0
    ensures x % (2 * p) / 2 == x / 2 % p && x % (2 * p) % 2 == x % 2
  {
    var q, r := x / 2 / p, x / 2 % p;
    assert x == 2 * (x / 2) + x % 2 && x / 2 == p * q + r;
    assert 2 * (p * q) == (2 * p) * q;
    QuotientIsUnique(x, 2 * p, q, 2 * r + x % 2);
    assert x % (2 * p) == x - (2 * p) * (x / (2 * p));
  }

  // ----- bitwise operations on two's-complement integers -----

  function Pow2(n: nat): (p: int)
    ensures p > 0
  {
    if n == 0 then 1 else 2 * Pow2(n - 1)
  }

  datatype BitOp = AndOp | OrOp | XorOp {
    predicate On(p: bool, q: bool) {
      match this
      case AndOp => p && q
      case OrOp => p || q
      case XorOp => p != q
    }
  }

  /** The bits of a and b, lowest first, combined by op; bit n is the sign. */
  function Bitwise(op: BitOp, a: int, b: int, n: nat): (r: int)
    requires -Pow2(n) <= a < Pow2(n) && -Pow2(n) <= b < Pow2(n)
    ensures -Pow2(n) <= r < Pow2(n)
    decreases n
  {
    if n == 0 then
      if op.On(a == -1, b == -1) then -1 else 0
    else
      2 * Bitwise(op, a / 2, b / 2, n - 1) + if op.On(a % 2 == 1, b % 2 == 1) then 1 else 0
  }

  /** Bit k of the two's-complement representation of x. */
  predicate Bit(x: int, k: nat)
    decreases k
  {
    if k == 0 then x % 2 == 1 else Bit(x / 2, k - 1)
  }

  lemma {:induction false} BitwiseIsPerBit(op: BitOp, a: int, b: int, n: nat, k: nat)
    requires -Pow2(n) <= a < Pow2(n) && -Pow2(n) <= b < Pow2(n) && k <= n
    ensures Bit(Bitwise(op, a, b, n), k) == op.On(Bit(a, k), Bit(b, k))
    decreases n
  {
    if n > 0 && k > 0 {
      var r := Bitwise(op, a, b, n);
      assert r / 2 == Bitwise(op, a / 2, b / 2, n - 1);
      BitwiseIsPerBit(op, a / 2, b / 2, n - 1, k - 1);
    }
  }

  /** Dividing by a power of two shifts the bits down. */
  lemma {:induction false} BitOfQuotient(x: int, n: nat, k: nat)
    ensures Bit(x / Pow2(n), k) == Bit(x, n + k)
    decreases n
  {
    if n > 0 {
      DivideTwice(x, 2, Pow2(n - 1));
      BitOfQuotient(x / 2, n - 1, k);
    }
  }

  /** The remainder by a power of two has the lowest bits. */
  lemma {:induction false} BitOfRemainder(x: int, n: nat, k: nat)
    ensures Bit(x % Pow2(n), k) <==> k < n && Bit(x, k)
    decreases k
  {
    if n == 0 {
      NoBits(k);
    } else {
      RemainderOfHalf(x, Pow2(n - 1));
      if k > 0 {
        BitOfRemainder(x / 2, n - 1, k - 1);
      }
    }
  }

  lemma {:induction false} NoBits(k: nat)
    ensures !Bit(0, k)
  {
    if k > 0 {
      NoBits(k - 1);
    }
  }

  /** A word is determined by its 64 bits. */
  lemma {:induction false} BitsDetermine(x: int, y: int, n: nat)
    requires -Pow2(n) <= x < Pow2(n) && -Pow2(n) <= y < Pow2(n)
    requires forall k: nat :: k <= n ==> Bit(x, k) == Bit(y, k)
    ensures x == y
    decreases n
  {
    assert Bit(x, 0) == Bit(y, 0);
    if n > 0 {
      forall k: nat | k <= n - 1 ensures Bit(x / 2, k) == Bit(y / 2, k) {
        assert Bit(x, k + 1) == Bit(y, k + 1);
      }
      BitsDetermine(x / 2, y / 2, n - 1);
    }
  }

  lemma Pow63()
    ensures Pow2(63) == TWO63
  {
    assert Pow2(7) == 128 && Pow2(14) == 128 * Pow2(7);
    Pow2Add(14, 7);
    Pow2Add(21, 21);
    Pow2Add(42, 21);
  }

  lemma {:induction false} Pow2Add(a: nat, b: nat)
    ensures Pow2(a + b) == Pow2(a) * Pow2(b)
  {
    if a > 0 {
      Pow2Add(a - 1, b);
    }
  }

  function And64(a: Word, b: Word): Word {
    Pow63();
    Bitwise(AndOp, a, b, 63)
  }

  function Or64(a: Word, b: Word): Word {
    Pow63();
    Bitwise(OrOp, a, b, 63)
  }

  function Xor64(a: Word, b: Word): Word {
    Pow63();
    Bitwise(XorOp, a, b, 63)
  }

  // ----- little-endian byte encoding -----

  function Encode(v: int, n: nat): (bs: seq<Byte>)
    ensures |bs| == n
    decreases n
  {
    if n == 0 then [] else [v % 256] + Encode(v / 256, n - 1)
  }

  function Decode(bs: seq<Byte>): (v: nat)
  {
    if bs == [] then 0 else bs[0] + 256 * Decode(bs[1..])
  }

  function Pow256(n: nat): (p: nat)
    ensures p > 0
  {
    if n == 0 then 1 else 256 * Pow256(n - 1)
  }

  lemma Pow256OfEight()
    ensures Pow256(8) == TWO64
  {
    assert Pow256(3) == 0x100_0000;
    assert Pow256(6) == 256 * (256 * (256 * Pow256(3)));
  }

  /** The lowest byte comes first: byte k has the weight 256 to the power of k. */
  lemma {:induction false} LowestFirst(v: int, n: nat, k: nat)
    requires k < n
    ensures Encode(v, n)[k] == v / Pow256(k) % 256
    decreases k
  {
    if k > 0 {
      LowestFirst(v / 256, n - 1, k - 1);
      DivideTwice(v, 256, Pow256(k - 1));
    }
  }

  lemma {:induction false} DecodeBound(bs: seq<Byte>)
    ensures Decode(bs) < Pow256(|bs|)
  {
    if bs != [] {
      DecodeBound(bs[1..]);
    }
  }

  lemma {:induction false} DecodeEncode(v: int, n: nat)
    ensures exists q: int :: Decode(Encode(v, n)) == v - q * Pow256(n)
    decreases n
  {
    if n == 0 {
      assert Decode(Encode(v, 0)) == v - v * Pow256(0);
    } else {
      DecodeEncode(v / 256, n - 1);
      var q: int :| Decode(Encode(v / 256, n - 1)) == v / 256 - q * Pow256(n - 1);
      assert Encode(v, n)[1..] == Encode(v / 256, n - 1);
      assert Decode(Encode(v, n)) == v - q * Pow256(n) by {
        assert 256 * (q * Pow256(n - 1)) == q * Pow256(n);
      }
    }
  }

  lemma {:induction false} EncodeDecode(bs: seq<Byte>)
    ensures Encode(Decode(bs), |bs|) == bs
  {
    assert bs != [] ==> Decode(bs) == bs[0] + 256 * Decode(bs[1..]);
    if bs != [] {
      EncodeDecode(bs[1..]);
      FirstDigit(bs[0], Decode(bs[1..]));
      hide Decode;
      assert Encode(Decode(bs), |bs|) == [bs[0]] + bs[1..];
    }
  }

  lemma FirstDigit(b: Byte, rest: nat)
    ensures (b + 256 * rest) % 256 == b && (b + 256 * rest) / 256 == rest
  {}

  /** The signed word stored in eight bytes. */
  function WordOf(bs: seq<Byte>): Word
    requires |bs| == 8
  {
    Wrap(Decode(bs))
  }

  lemma Multiple(q: int)
    ensures (q * TWO64) % TWO64 == 0
  {}

  /** Reading back a stored word gives the word. */
  lemma WordRoundTrip(v: Word)
    ensures WordOf(Encode(v, 8)) == v
  {
    DecodeEncode(v, 8);
    var q: int :| Decode(Encode(v, 8)) == v - q * Pow256(8);
    Pow256OfEight();
    Multiple(-q);
    assert Decode(Encode(v, 8)) - v == -q * TWO64;
    WrapUnique(Decode(Encode(v, 8)), v);
  }
}
