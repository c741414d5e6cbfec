/** The parts of the PHP runtime that the stream decoder is built on:
    strings as byte sequences, integers as 64-bit two's complement with the
    bitwise operators `&` and `~`, `chr`, and the `unpack`/`pack` formats
    used for fixed-width integers. */
module Php {
  import opened Wrappers

  /** One byte of a PHP string, as its value `ord` reports. */
  newtype byte = x: int | 0 <= x < 256

  /** 256^n: the number of distinct n-byte strings. */
  function Pow256(n: nat): (p: int)
    ensures p >= 1
  {
    if n == 0 then 1 else 256 * Pow256(n - 1)
  }

  /** 2^k. */
  function Pow2(k: nat): (p: int)
    ensures p >= 1
  {
    if k == 0 then 1 else 2 * Pow2(k - 1)
  }

  /** PHP integers are 64 bits wide, in two's complement. */
  predicate IsPhpInt(x: int) {
    -0x8000_0000_0000_0000 <= x < 0x8000_0000_0000_0000
  }

  /** `chr($n)`: the byte holding the low eight bits of n, so that
      chr(-1) is "\xff" and chr(0x141) is "A". */
  function Chr(n: int): (c: byte)
    ensures c as int == n % 256
  {
    ByteValue(n % 256);
    (n % 256) as byte
  }

  /** chr of a byte's value is that byte. */
  lemma ChrOfByte(b: byte)
    ensures Chr(b as int) == b
  {
    ByteOfInt(b);
    assert (b as int) % 256 == b as int;
  }

  // ---------------------------------------------------------------------
  // Bitwise operators on integers

  /** PHP's `$x & $y`, computed on unbounded two's complement. A 64-bit
      operand is the sign extension of its 64 bits; BitAndBits states that
      each bit of the result is the AND of the operands' bits, and
      BitAndRange that operands of a given width give a result of that
      width, so on PHP integers this is the 64-bit operator. */
  function BitAnd(x: int, y: int): (r: int)
    ensures 0 <= x ==> 0 <= r <= x
    ensures 0 <= y ==> 0 <= r <= y
    ensures x < 0 && y < 0 ==> r < 0
    decreases Magnitude(x) + Magnitude(y)
  {
    if x == 0 || y == 0 then 0
    else if x == -1 then y
    else if y == -1 then x
    else 2 * BitAnd(x / 2, y / 2) + (if x % 2 == 1 && y % 2 == 1 then 1 else 0)
  }

  /** PHP's `~$x`: in two's complement, -x - 1. It flips the sign and keeps
      PHP integers within 64 bits; BitNotBits states that it flips every
      bit. */
  function BitNot(x: int): (r: int)
    ensures x < 0 <==> 0 <= r
    ensures IsPhpInt(x) ==> IsPhpInt(r)
  {
    -x - 1
  }

  /** PHP's `$x | $y`, on unbounded two's complement like BitAnd. */
  function BitOr(x: int, y: int): (r: int)
    ensures r < 0 <==> x < 0 || y < 0
    decreases Magnitude(x) + Magnitude(y)
  {
    if x == 0 then y
    else if y == 0 then x
    else if x == -1 || y == -1 then -1
    else 2 * BitOr(x / 2, y / 2) + (if x % 2 == 1 || y % 2 == 1 then 1 else 0)
  }

  /** The OR and the AND of two integers add up to their sum, so `|` of two
      integers with no bit in common is `+`. */
  lemma {:induction false} BitOrAndSum(x: int, y: int)
    ensures BitOr(x, y) + BitAnd(x, y) == x + y
    decreases Magnitude(x) + Magnitude(y)
  {
    if x == 0 || y == 0 {
    } else if x == -1 || y == -1 {
      assert BitAnd(x, y) == (if x == -1 then y else x);
    } else {
      HalfMagnitude(x);
      HalfMagnitude(y);
      BitOrAndSum(x / 2, y / 2);
      BitAndStep(x, y);
      assert BitOr(x, y) == 2 * BitOr(x / 2, y / 2) + (if x % 2 == 1 || y % 2 == 1 then 1 else 0);
      OrAndArith(x, y, BitOr(x, y), BitAnd(x, y), BitOr(x / 2, y / 2), BitAnd(x / 2, y / 2));
    }
  }

  /** The arithmetic of BitOrAndSum's step: the low bits of x and y add up
      to their OR plus their AND. */
  lemma OrAndArith(x: int, y: int, o: int, a: int, o2: int, a2: int)
    requires o == 2 * o2 + (if x % 2 == 1 || y % 2 == 1 then 1 else 0)
    requires a == 2 * a2 + (if x % 2 == 1 && y % 2 == 1 then 1 else 0)
    requires o2 + a2 == x / 2 + y / 2
    ensures o + a == x + y
  {
  }

  /** PHP's `$x ^ $y`, on unbounded two's complement like BitAnd. The XOR is
      the sum less twice the bits the operands share. */
  function BitXor(x: int, y: int): (r: int)
    ensures r < 0 <==> (x < 0) != (y < 0)
    decreases Magnitude(x) + Magnitude(y)
  {
    if x == 0 then y
    else if y == 0 then x
    else if x == -1 then BitNot(y)
    else if y == -1 then BitNot(x)
    else 2 * BitXor(x / 2, y / 2) + (if x % 2 == y % 2 then 0 else 1)
  }

  /** x ^ y and x & y together account for x + y: the XOR keeps the bits set
      in exactly one operand, the AND counts those set in both twice. */
  lemma {:induction false} BitXorAndSum(x: int, y: int)
    ensures BitXor(x, y) + 2 * BitAnd(x, y) == x + y
    decreases Magnitude(x) + Magnitude(y)
  {
    if x == 0 || y == 0 {
    } else if x == -1 || y == -1 {
      assert BitAnd(x, y) == (if x == -1 then y else x);
    } else {
      HalfMagnitude(x);
      HalfMagnitude(y);
      BitXorAndSum(x / 2, y / 2);
      BitAndStep(x, y);
      BitXorStep(x, y);
      XorAndArith(x, y, BitXor(x, y), BitAnd(x, y), BitXor(x / 2, y / 2), BitAnd(x / 2, y / 2));
    }
  }

  /** The arithmetic of BitXorAndSum's step: the low bits of x and y add up
      to their XOR plus twice their AND. */
  lemma XorAndArith(x: int, y: int, e: int, a: int, e2: int, a2: int)
    requires e == 2 * e2 + (if x % 2 == y % 2 then 0 else 1)
    requires a == 2 * a2 + (if x % 2 == 1 && y % 2 == 1 then 1 else 0)
    requires e2 + 2 * a2 == x / 2 + y / 2
    ensures e + 2 * a == x + y
  {
  }

  /** Bit k of x & y is set exactly when bit k is set in both x and y. */
  lemma {:induction false} BitAndBits(x: int, y: int, k: nat)
    ensures Bit(BitAnd(x, y), k) == if Bit(x, k) == 1 && Bit(y, k) == 1 then 1 else 0
    decreases k
  {
    if x == 0 || y == 0 {
      BitOfZero(k);
    } else if x == -1 || y == -1 {
      BitOfMinusOne(k);
    } else {
      var p := if x % 2 == 1 && y % 2 == 1 then 1 else 0;
      Halve(BitAnd(x, y), BitAnd(x / 2, y / 2), p);
      if k > 0 {
        BitAndBits(x / 2, y / 2, k - 1);
      }
    }
  }

  /** Bit k of ~x is the opposite of bit k of x. */
  lemma {:induction false} BitNotBits(x: int, k: nat)
    ensures Bit(BitNot(x), k) == 1 - Bit(x, k)
    decreases k
  {
    var q, r := x / 2, x % 2;
    Halve(BitNot(x), BitNot(q), 1 - r);
    if k > 0 {
      BitNotBits(q, k - 1);
    }
  }

  lemma BitOfZero(k: nat)
    ensures Bit(0, k) == 0
  {
  }

  lemma BitOfMinusOne(k: nat)
    ensures Bit(-1, k) == 1
  {
  }

  /** Operands in [-2^k, 2^k) give x & y in [-2^k, 2^k): with k = 63, the
      AND of two PHP integers is a PHP integer. */
  lemma {:induction false} BitAndRange(x: int, y: int, k: nat)
    requires -Pow2(k) <= x < Pow2(k) && -Pow2(k) <= y < Pow2(k)
    ensures -Pow2(k) <= BitAnd(x, y) < Pow2(k)
    decreases k
  {
    if x < 0 && y < 0 && x != -1 && y != -1 {
      assert k > 0;
      BitAndRange(x / 2, y / 2, k - 1);
    }
  }

  /** One step of BitXor's recursion, for every pair of operands. */
  lemma BitXorStep(x: int, y: int)
    ensures BitXor(x, y) == 2 * BitXor(x / 2, y / 2) + (if x % 2 == y % 2 then 0 else 1)
  {
    if x == 0 {
      assert BitXor(0, y / 2) == y / 2;
    } else if y == 0 {
      assert BitXor(x / 2, 0) == x / 2;
    } else if x == -1 {
      assert BitXor(-1, y / 2) == (if y / 2 == 0 then -1 else BitNot(y / 2));
    } else if y == -1 {
      assert BitXor(x / 2, -1) == (if x / 2 == 0 then -1 else BitNot(x / 2));
    }
  }

  /** XOR with the same y twice gives x back. */
  lemma {:induction false} BitXorInvolutive(x: int, y: int)
    ensures BitXor(BitXor(x, y), y) == x
    decreases Magnitude(x) + Magnitude(y)
  {
    if x == 0 && (y == 0 || y == -1) {
      assert BitXor(x, y) == y && BitXor(y, y) == 0;
    } else if x == -1 && y == 0 {
      assert BitXor(x, y) == -1 && BitXor(-1, 0) == -1;
    } else if x == -1 && y == -1 {
      assert BitXor(x, y) == 0 && BitXor(0, -1) == -1;
    } else {
      HalfMagnitude(x);
      HalfMagnitude(y);
      BitXorInvolutive(x / 2, y / 2);
      BitXorInvolutiveStep(x, y);
    }
  }

  /** If XOR with y / 2 undoes itself on x / 2, XOR with y undoes itself on x. */
  lemma BitXorInvolutiveStep(x: int, y: int)
    requires BitXor(BitXor(x / 2, y / 2), y / 2) == x / 2
    ensures BitXor(BitXor(x, y), y) == x
  {
    var z, a := BitXor(x, y), BitXor(x / 2, y / 2);
    var c := if x % 2 == y % 2 then 0 else 1;
    assert z / 2 == a && z % 2 == c by {
      BitXorStep(x, y);
      Halve(z, a, c);
    }
    assert (if c == y % 2 then 0 else 1) == x % 2;
    BitXorStep(z, y);
  }

  /** |x|, the measure the bitwise recursions shrink. */
  function Magnitude(x: int): (m: nat)
    ensures m == x || m == -x
  {
    if x < 0 then -x else x
  }

  /** Halving never grows the magnitude, and shrinks it except at 0 and -1. */
  lemma HalfMagnitude(x: int)
    ensures Magnitude(x / 2) <= Magnitude(x)
    ensures x != 0 && x != -1 ==> Magnitude(x / 2) < Magnitude(x)
  {
  }

  /** Operands in [0, 2^k) give x ^ y in [0, 2^k). */
  lemma {:induction false} BitXorRange(x: int, y: int, k: nat)
    requires 0 <= x < Pow2(k) && 0 <= y < Pow2(k)
    ensures 0 <= BitXor(x, y) < Pow2(k)
    decreases k
  {
    if x != 0 && y != 0 {
      BitXorRange(x / 2, y / 2, k - 1);
    }
  }

  /** The low k bits of x ^ y depend only on the low k bits of y. */
  lemma {:induction false} BitXorLowBits(x: int, y: int, k: nat)
    ensures BitXor(x, y) % Pow2(k) == BitXor(x, y % Pow2(k)) % Pow2(k)
    decreases k
  {
    if k > 0 {
      BitXorLowBits(x / 2, y / 2, k - 1);
      BitXorLowBitsStep(x, y, Pow2(k - 1));
    }
  }

  /** One step of BitXorLowBits: from the halves modulo p to x and y modulo 2p. */
  lemma BitXorLowBitsStep(x: int, y: int, p: int)
    requires p > 0
    requires BitXor(x / 2, y / 2) % p == BitXor(x / 2, (y / 2) % p) % p
    ensures BitXor(x, y) % (2 * p) == BitXor(x, y % (2 * p)) % (2 * p)
  {
    var y' := y % (2 * p);
    var c := if x % 2 == y % 2 then 0 else 1;
    var a, a' := BitXor(x / 2, y / 2), BitXor(x / 2, y' / 2);
    assert y' / 2 == (y / 2) % p && y' % 2 == y % 2 by {
      ModHalf(y, p);
    }
    assert BitXor(x, y) % (2 * p) == 2 * (a % p) + c by {
      BitXorStep(x, y);
      ModDouble(a, c, p);
    }
    assert BitXor(x, y') % (2 * p) == 2 * (a' % p) + c by {
      BitXorStep(x, y');
      ModDouble(a', c, p);
    }
  }

  /** Reducing y modulo 2p, then halving, is halving, then reducing modulo p;
      the lowest bit stays. */
  lemma ModHalf(y: int, p: int)
    requires p > 0
    ensures (y % (2 * p)) / 2 == (y / 2) % p
    ensures (y % (2 * p)) % 2 == y % 2
  {
    var q, m := y / (2 * p), y % (2 * p);
    assert y == 2 * (p * q + m / 2) + m % 2;
    Halve(y, p * q + m / 2, m % 2);
    ModUnique(y / 2, p, q, m / 2);
  }

  /** Doubling a and adding a bit c, modulo 2p. */
  lemma ModDouble(a: int, c: int, p: int)
    requires p > 0 && (c == 0 || c == 1)
    ensures (2 * a + c) % (2 * p) == 2 * (a % p) + c
  {
    var q, m := a / p, a % p;
    assert 2 * a + c == (2 * p) * q + (2 * m + c);
    ModUnique(2 * a + c, 2 * p, q, 2 * m + c);
  }

  /** 2^(m + n) = 2^m * 2^n. */
  lemma {:induction false} Pow2Sum(m: nat, n: nat)
    ensures Pow2(m + n) == Pow2(m) * Pow2(n)
    decreases m
  {
    if m > 0 {
      Pow2Sum(m - 1, n);
      assert Pow2(m + n) == 2 * Pow2(m - 1 + n);
    }
  }

  /** A multiple of 2^k has no bit below k, so its AND with a value below 2^k
      is 0. */
  lemma {:induction false} BitAndLowZero(c: int, h: int, k: nat)
    requires c >= 0 && 0 <= h < Pow2(k)
    ensures BitAnd(c * Pow2(k), h) == 0
    decreases k
  {
    if k > 0 && h > 0 {
      var x, half := c * Pow2(k), c * Pow2(k - 1);
      assert x == 2 * half;
      Halve(x, half, 0);
      BitAndStep(x, h);
      BitAndLowZero(c, h / 2, k - 1);
    }
  }

  /** v < p * q gives v / p < q. */
  lemma QuotientBelow(v: int, p: int, q: int)
    requires p > 0 && 0 <= v < p * q
    ensures v / p < q
  {
    if v / p >= q {
      MulLe(p, q, v / p);
    }
  }

  lemma MulLe(m: int, a: int, b: int)
    requires m >= 0 && a <= b
    ensures m * a <= m * b
  {
    assert m * b - m * a == m * (b - a);
  }

  /** x = m * q + r with 0 <= r < m: q and r are x / m and x % m. */
  lemma ModUnique(x: int, m: int, q: int, r: int)
    requires m > 0 && 0 <= r < m && x == m * q + r
    ensures x / m == q && x % m == r
  {
    var q', r' := x / m, x % m;
    assert x == m * q' + r';
    assert m * (q - q') == r' - r;
    if q - q' >= 1 {
      MulAtLeast(m, q - q');
    } else if q' - q >= 1 {
      MulAtLeast(m, q' - q);
    }
  }

  lemma MulAtLeast(m: int, d: int)
    requires m > 0 && d >= 1
    ensures m * d >= m
  {
  }

  /** The bits of x under m and the bits of x under ~m add up to x. */
  lemma {:induction false} BitAndSplit(x: int, m: int)
    ensures BitAnd(x, m) + BitAnd(x, BitNot(m)) == x
    decreases Magnitude(x)
  {
    if x == 0 {
      assert BitAnd(x, m) == 0 && BitAnd(x, BitNot(m)) == 0;
    } else if m == 0 {
      assert BitAnd(x, m) == 0 && BitAnd(x, BitNot(m)) == x;
    } else if m == -1 {
      assert BitAnd(x, m) == x && BitAnd(x, BitNot(m)) == 0;
    } else if x == -1 {
      assert BitAnd(x, m) == m && BitAnd(x, BitNot(m)) == BitNot(m);
    } else {
      HalfMagnitude(x);
      BitAndSplit(x / 2, m / 2);
      Halve(BitNot(m), BitNot(m / 2), 1 - m % 2);
      BitAndStep(x, m);
      BitAndStep(x, BitNot(m));
      SplitArith(x, m % 2, BitAnd(x, m), BitAnd(x, BitNot(m)), BitAnd(x / 2, m / 2), BitAnd(x / 2, BitNot(m / 2)));
    }
  }

  /** The arithmetic of BitAndSplit's step: a bit of x goes to exactly one of
      the two parts. */
  lemma SplitArith(x: int, r: int, a: int, c: int, a2: int, c2: int)
    requires r == 0 || r == 1
    requires a == 2 * a2 + (if x % 2 == 1 && r == 1 then 1 else 0)
    requires c == 2 * c2 + (if x % 2 == 1 && 1 - r == 1 then 1 else 0)
    requires a2 + c2 == x / 2
    ensures a + c == x
  {
  }

  /** One step of BitAnd's recursion, for every pair of operands. */
  lemma BitAndStep(x: int, y: int)
    ensures BitAnd(x, y) == 2 * BitAnd(x / 2, y / 2) + (if x % 2 == 1 && y % 2 == 1 then 1 else 0)
  {
    if x == 0 || y == 0 {
    } else if x == -1 {
      assert BitAnd(-1, y / 2) == y / 2;
    } else if y == -1 {
      assert BitAnd(x / 2, -1) == x / 2;
    }
  }

  /** a = 2q + r with a bit r: q and r are a / 2 and a % 2. */
  lemma Halve(a: int, q: int, r: int)
    requires (r == 0 || r == 1) && a == 2 * q + r
    ensures a / 2 == q && a % 2 == r
  {
  }

  /** Bit k of x's two's-complement pattern (bit 0 is the least significant). */
  function Bit(x: int, k: nat): (b: int)
    ensures b == 0 || b == 1
    decreases k
  {
    if k == 0 then x % 2 else Bit(x / 2, k - 1)
  }

  /** Masking with a single bit 2^k keeps exactly that bit of x. */
  lemma {:induction false} BitAndPow2(x: int, k: nat)
    ensures BitAnd(x, Pow2(k)) == Bit(x, k) * Pow2(k)
    decreases k
  {
    if k == 0 {
      assert Pow2(k) == 1;
    } else {
      var p := Pow2(k - 1);
      assert Pow2(k) == 2 * p;
      var b := Bit(x / 2, k - 1);
      assert Bit(x, k) == b;
      BitAndPow2(x / 2, k - 1);
      if x == 0 {
        assert b == 0 by { assert BitAnd(0, p) == 0; }
      } else if x == -1 {
        assert x / 2 == -1;
        assert b == 1 by { assert BitAnd(-1, p) == p; }
        assert BitAnd(x, 2 * p) == 2 * p;
      } else {
        assert (2 * p) / 2 == p && (2 * p) % 2 == 0;
        assert BitAnd(x, 2 * p) == 2 * BitAnd(x / 2, p);
        if b == 0 {
          assert BitAnd(x / 2, p) == 0;
        } else {
          assert BitAnd(x / 2, p) == p;
        }
      }
    }
  }

  /** Masking with the complement of 2^k clears exactly that bit of x. */
  lemma BitAndNotPow2(x: int, k: nat)
    ensures BitAnd(x, BitNot(Pow2(k))) == x - Bit(x, k) * Pow2(k)
  {
    BitAndSplit(x, Pow2(k));
    BitAndPow2(x, k);
  }

  /** Below 2^(k+1), bit k of x is set exactly when x is at least 2^k. */
  lemma {:induction false} TopBit(x: int, k: nat)
    requires 0 <= x < 2 * Pow2(k)
    ensures Bit(x, k) == if x < Pow2(k) then 0 else 1
    decreases k
  {
    if k > 0 {
      TopBit(x / 2, k - 1);
    }
  }

  // ---------------------------------------------------------------------
  // Byte order

  /** The unsigned value of bs read most significant byte first. */
  function BigEndian(bs: seq<byte>): (v: nat)
    ensures v < Pow256(|bs|)
    decreases |bs|
  {
    if bs == [] then 0 else BigEndian(bs[..|bs| - 1]) * 256 + bs[|bs| - 1] as int
  }

  /** The unsigned value of bs read least significant byte first. */
  function LittleEndian(bs: seq<byte>): (v: nat)
    ensures v < Pow256(|bs|)
    decreases |bs|
  {
    if bs == [] then 0 else bs[0] as int + 256 * LittleEndian(bs[1..])
  }

  /** The low `width` bytes of v, most significant first. */
  function ToBigEndian(v: nat, width: nat): (bs: seq<byte>)
    ensures |bs| == width
  {
    if width == 0 then [] else ToBigEndian(v / 256, width - 1) + [(v % 256) as byte]
  }

  /** The low `width` bytes of v, least significant first. */
  function ToLittleEndian(v: nat, width: nat): (bs: seq<byte>)
    ensures |bs| == width
  {
    if width == 0 then [] else [(v % 256) as byte] + ToLittleEndian(v / 256, width - 1)
  }

  function Reversed(bs: seq<byte>): (r: seq<byte>)
    ensures |r| == |bs|
    ensures forall i :: 0 <= i < |bs| ==> r[i] == bs[|bs| - 1 - i]
  {
    if bs == [] then [] else Reversed(bs[1..]) + [bs[0]]
  }

  lemma {:induction false} BigEndianRoundTrip(bs: seq<byte>)
    ensures ToBigEndian(BigEndian(bs), |bs|) == bs
    decreases |bs|
  {
    if bs != [] {
      var init, last := bs[..|bs| - 1], bs[|bs| - 1];
      var a := BigEndian(init);
      var v := BigEndian(bs);
      assert v / 256 == a && v % 256 == last as int by {
        assert v == a * 256 + last as int;
        DivMod256(a, last as int);
      }
      assert (v % 256) as byte == last by {
        ByteOfInt(last);
      }
      calc {
        ToBigEndian(v, |bs|);
        ToBigEndian(v / 256, |bs| - 1) + [(v % 256) as byte];
        ToBigEndian(a, |init|) + [last];
        { BigEndianRoundTrip(init); }
        init + [last];
        bs;
      }
    }
  }

  lemma {:induction false} ToBigEndianRoundTrip(v: nat, width: nat)
    requires v < Pow256(width)
    ensures BigEndian(ToBigEndian(v, width)) == v
    decreases width
  {
    if width > 0 {
      var bs := ToBigEndian(v, width);
      var init := ToBigEndian(v / 256, width - 1);
      assert bs[..|bs| - 1] == init;
      assert bs[|bs| - 1] as int == v % 256 by {
        ByteValue(v % 256);
      }
      assert BigEndian(init) == v / 256 by {
        QuotientBound(v, Pow256(width - 1));
        ToBigEndianRoundTrip(v / 256, width - 1);
      }
      assert BigEndian(bs) == BigEndian(init) * 256 + v % 256;
    }
  }

  lemma {:induction false} LittleEndianRoundTrip(bs: seq<byte>)
    ensures ToLittleEndian(LittleEndian(bs), |bs|) == bs
    decreases |bs|
  {
    if bs != [] {
      var first, rest := bs[0], bs[1..];
      var a := LittleEndian(rest);
      var v := LittleEndian(bs);
      assert v / 256 == a && v % 256 == first as int by {
        assert v == first as int + 256 * a;
        DivMod256(a, first as int);
      }
      assert (v % 256) as byte == first by {
        ByteOfInt(first);
      }
      calc {
        ToLittleEndian(v, |bs|);
        [(v % 256) as byte] + ToLittleEndian(v / 256, |bs| - 1);
        [first] + ToLittleEndian(a, |rest|);
        { LittleEndianRoundTrip(rest); }
        [first] + rest;
        bs;
      }
    }
  }

  lemma {:induction false} ToLittleEndianRoundTrip(v: nat, width: nat)
    requires v < Pow256(width)
    ensures LittleEndian(ToLittleEndian(v, width)) == v
    decreases width
  {
    if width > 0 {
      var bs := ToLittleEndian(v, width);
      assert bs[1..] == ToLittleEndian(v / 256, width - 1);
      assert LittleEndian(bs[1..]) == v / 256 by {
        QuotientBound(v, Pow256(width - 1));
        ToLittleEndianRoundTrip(v / 256, width - 1);
      }
      assert bs[0] as int == v % 256 by {
        ByteValue(v % 256);
      }
      assert LittleEndian(bs) == v % 256 + 256 * (v / 256);
    }
  }

  /** Dividing a * 256 + b by 256, for a digit b, gives back a and b. */
  lemma DivMod256(a: int, b: int)
    requires 0 <= b < 256
    ensures (a * 256 + b) / 256 == a && (a * 256 + b) % 256 == b
    ensures (b + 256 * a) / 256 == a && (b + 256 * a) % 256 == b
  {
  }

  /** A byte's value lies in [0, 256). */
  lemma ByteRange(b: byte)
    ensures 0 <= b as int < 256
  {
  }

  /** Bytes with the same value are the same byte. */
  lemma SameValue(a: byte, b: byte)
    requires a as int == b as int
    ensures a == b
  {
    ByteOfInt(a);
    ByteOfInt(b);
  }

  /** A byte converts to an integer and back unchanged. */
  lemma ByteOfInt(b: byte)
    ensures (b as int) as byte == b
  {
  }

  /** A byte built from a value in [0, 256) converts back to that value. */
  lemma ByteValue(n: nat)
    requires n < 256
    ensures (n as byte) as int == n
  {
    if n < 16 {
    } else if n < 32 {
    } else if n < 64 {
    } else if n < 128 {
    }
  }

  lemma QuotientBound(v: nat, p: int)
    requires 0 < p && v < 256 * p
    ensures v / 256 < p
  {
  }

  /** Little-endian order is big-endian order of the reversed bytes. */
  lemma {:induction false} LittleEndianIsReversedBigEndian(bs: seq<byte>)
    ensures LittleEndian(bs) == BigEndian(Reversed(bs))
    decreases |bs|
  {
    if bs != [] {
      var r := Reversed(bs);
      assert r[..|r| - 1] == Reversed(bs[1..]);
      assert r[|r| - 1] == bs[0];
      LittleEndianIsReversedBigEndian(bs[1..]);
    }
  }

  // ---------------------------------------------------------------------
  // Two's complement

  /** The integer whose `width`-byte two's-complement pattern is the unsigned
      value v: the unique value of the signed range congruent to v. */
  function AsSigned(v: int, width: nat): (s: int)
    requires 0 < width && 0 <= v < Pow256(width)
    ensures -Pow256(width) / 2 <= s < Pow256(width) / 2
    ensures s >= 0 ==> v == s
    ensures s < 0 ==> v == s + Pow256(width)
  {
    var half := Pow256(width) / 2;
    assert Pow256(width) == 2 * half;
    if v < half then v else v - Pow256(width)
  }

  // ---------------------------------------------------------------------
  // unpack / pack

  /** The `unpack` format codes the integer decoders use. */
  datatype Format =
    | UnsignedChar  // "C"
    | SignedChar    // "c"
    | UInt16BE      // "n"
    | UInt32BE      // "N"
    | UInt64BE      // "J"
    | UInt16LE      // "v"
    | UInt32LE      // "V"
    | UInt64LE      // "P"

  /** Bytes one value of the format occupies. */
  function Width(f: Format): (w: nat)
    ensures w in {1, 2, 4, 8}
  {
    match f
    case UnsignedChar | SignedChar => 1
    case UInt16BE | UInt16LE => 2
    case UInt32BE | UInt32LE => 4
    case UInt64BE | UInt64LE => 8
  }

  predicate IsBigEndian(f: Format) {
    f.UInt16BE? || f.UInt32BE? || f.UInt64BE?
  }

  /** Formats whose value is read as a signed integer: "c", and the 64-bit
      codes, whose unsigned value does not fit a PHP integer and wraps. */
  predicate IsSigned(f: Format) {
    f.SignedChar? || f.UInt64BE? || f.UInt64LE?
  }

  /** `unpack($f, $s)[1]`: the first value of format f at the start of s.
      `None` where unpack has too little input (it warns and returns false,
      and indexing false gives null). */
  function Unpack(f: Format, s: seq<byte>): (r: Option<int>)
    ensures r.Some? <==> Width(f) <= |s|
    ensures r.Some? ==> IsPhpInt(r.value)
  {
    if |s| < Width(f) then None
    else
      var w := s[..Width(f)];
      var u := if IsBigEndian(f) then BigEndian(w) else LittleEndian(w);
      Some(if IsSigned(f) then AsSigned(u, Width(f)) else u)
  }

  /** `pack($f, $v)`: the Width(f)-byte encoding of the low bits of v. */
  function Pack(f: Format, v: int): (s: seq<byte>)
    ensures |s| == Width(f)
  {
    var u := v % Pow256(Width(f));
    if IsBigEndian(f) then ToBigEndian(u, Width(f)) else ToLittleEndian(u, Width(f))
  }

  /** Values of the unsigned formats lie in [0, 256^width). */
  lemma UnpackUnsignedRange(f: Format, s: seq<byte>)
    requires !IsSigned(f) && Width(f) <= |s|
    ensures 0 <= Unpack(f, s).value < Pow256(Width(f))
  {
  }

  /** Values of the signed formats lie in [-256^width / 2, 256^width / 2). */
  lemma UnpackSignedRange(f: Format, s: seq<byte>)
    requires IsSigned(f) && Width(f) <= |s|
    ensures -Pow256(Width(f)) / 2 <= Unpack(f, s).value < Pow256(Width(f)) / 2
  {
  }

  /** Unpacking exactly Width(f) bytes and packing the value again gives the
      bytes back, for every format. */
  lemma UnpackPackRoundTrip(f: Format, s: seq<byte>)
    requires |s| == Width(f)
    ensures Pack(f, Unpack(f, s).value) == s
  {
    var w := Width(f);
    assert s[..w] == s;
    var u := if IsBigEndian(f) then BigEndian(s) else LittleEndian(s);
    var v := Unpack(f, s).value;
    assert v % Pow256(w) == u by {
      if v >= 0 { ModOfSmall(v, Pow256(w)); } else { ModOfNegative(v, Pow256(w)); }
    }
    if IsBigEndian(f) { BigEndianRoundTrip(s); } else { LittleEndianRoundTrip(s); }
  }

  /** Packing a value of the format's range and unpacking it gives it back. */
  lemma PackUnpackRoundTrip(f: Format, v: int)
    requires if IsSigned(f) then -Pow256(Width(f)) / 2 <= v < Pow256(Width(f)) / 2
             else 0 <= v < Pow256(Width(f))
    ensures Unpack(f, Pack(f, v)) == Some(v)
  {
    var w := Width(f);
    var p := Pow256(w);
    var s := Pack(f, v);
    var u := v % p;
    assert s[..w] == s;
    assert (if IsBigEndian(f) then BigEndian(s) else LittleEndian(s)) == u by {
      if IsBigEndian(f) { ToBigEndianRoundTrip(u, w); } else { ToLittleEndianRoundTrip(u, w); }
    }
    assert u == (if v >= 0 then v else v + p) by {
      if v >= 0 { ModOfSmall(v, p); } else { ModOfNegative(v, p); }
    }
    assert Unpack(f, s) == Some(if IsSigned(f) then AsSigned(u, w) else u);
  }

  lemma ModOfSmall(v: int, p: int)
    requires 0 <= v < p
    ensures v % p == v
  {
  }

  lemma ModOfNegative(v: int, p: int)
    requires -p <= v < 0
    ensures v % p == v + p
  {
  }

  /** Eight 0xff bytes unpack to -1 with "J" and "P": PHP has no unsigned
      64-bit integers, so 2^64 - 1 wraps. */
  lemma UnpackAllOnes64()
    ensures Unpack(UInt64BE, [0xff, 0xff, 0xff, 0xff, 0xff, 0xff, 0xff, 0xff]) == Some(-1)
    ensures Unpack(UInt64LE, [0xff, 0xff, 0xff, 0xff, 0xff, 0xff, 0xff, 0xff]) == Some(-1)
  {
    var s: seq<byte> := [0xff, 0xff, 0xff, 0xff, 0xff, 0xff, 0xff, 0xff];
    assert s[..8] == s;
    assert Pow256(8) == 0x1_0000_0000_0000_0000;
    AllOnesBigEndian(8);
    AllOnesLittleEndian(8);
    assert s == AllOnes(8);
  }

  function AllOnes(n: nat): (s: seq<byte>)
    ensures |s| == n && forall i :: 0 <= i < n ==> s[i] == 0xff
  {
    if n == 0 then [] else AllOnes(n - 1) + [0xff]
  }

  lemma {:induction false} AllOnesBigEndian(n: nat)
    ensures BigEndian(AllOnes(n)) == Pow256(n) - 1
  {
    if n > 0 {
      assert AllOnes(n)[..n - 1] == AllOnes(n - 1);
      AllOnesBigEndian(n - 1);
    }
  }

  lemma {:induction false} AllOnesLittleEndian(n: nat)
    ensures LittleEndian(AllOnes(n)) == Pow256(n) - 1
  {
    if n > 0 {
      assert AllOnes(n)[1..] == AllOnes(n - 1) by {
        assert forall i :: 0 <= i < n - 1 ==> AllOnes(n)[1..][i] == 0xff;
      }
      AllOnesLittleEndian(n - 1);
    }
  }
}
