/** What the static byte-array transforms of the stream class compute,
    stated as functions, and the laws relating them: each transform keeps the
    length, XOR with a key undoes itself, and rotating left by 8 - a undoes a
    rotation by a. */
module ByteTransforms {
  import opened Wrappers
  import opened Php
  import opened StreamErrors

  /** `strByteToUint`: `unpack("C", $s)[1]`, the first byte of s. On an empty
      string unpack fails, and the `int` return type rejects the null it
      leaves. */
  function StrByteToUint(s: seq<byte>): (r: Result<int, Error>)
    ensures r.Success? <==> |s| > 0
    ensures r.Success? ==> 0 <= r.value < 256 && r.value == s[0] as int
    ensures r.Failure? ==> r.error == NotEnoughInput(1, 0)
  {
    match Unpack(UnsignedChar, s)
    case Some(v) => Success(v)
    case None => Failure(NotEnoughInput(1, |s|))
  }

  /** The key of processXorOne: an integer, or a string whose first byte is
      the key. */
  datatype XorKey = IntKey(n: int) | StrKey(s: seq<byte>)

  /** The integer key processXorOne XORs with: a string key goes through
      strByteToUint first, so the empty string fails. */
  function KeyValue(key: XorKey): (r: Result<int, Error>)
    ensures r.Failure? <==> key == StrKey([])
    ensures r.Failure? ==> r.error == NotEnoughInput(1, 0)
    ensures key.IntKey? ==> r == Success(key.n)
    ensures key.StrKey? && key.s != [] ==> r == Success(key.s[0] as int)
  {
    match key
    case IntKey(n) => Success(n)
    case StrKey(s) => StrByteToUint(s)
  }

  /** The byte the key contributes. The source computes `chr($b ^ $key)` on
      integers; chr keeps the low eight bits, and the low eight bits of
      b ^ key are b XOR the low eight bits of the key. */
  function KeyByte(key: XorKey): (k: Result<byte, Error>)
    ensures k.Failure? <==> key == StrKey([])
    ensures k.Failure? ==> k.error == NotEnoughInput(1, 0)
    ensures key.IntKey? ==> k == Success(Chr(key.n))
    ensures key.StrKey? && key.s != [] ==> k == Success(key.s[0])
  {
    match KeyValue(key)
    case Failure(e) => Failure(e)
    case Success(n) =>
      ChrOfByte(if key.StrKey? then key.s[0] else 0);
      Success(Chr(n))
  }

  /** One byte XORed with one key byte, as the loops compute it:
      `chr(strByteToUint($b) ^ $k)` on the two byte values. Their XOR is
      again a byte value, so chr cuts nothing off. */
  function XorByte(b: byte, k: byte): (r: byte)
    ensures r as int == BitXor(b as int, k as int)
  {
    var x := BitXor(b as int, k as int);
    assert 0 <= x < 256 by {
      assert Pow2(8) == 256;
      BitXorRange(b as int, k as int, 8);
    }
    ModOfSmall(x, 256);
    Chr(x)
  }

  /** With an integer key the loop computes `chr($b ^ $key)` on the whole
      key; chr keeps the low byte, which is b XOR chr(key). */
  lemma XorIntKey(b: byte, n: int)
    ensures Chr(BitXor(b as int, n)) == XorByte(b, Chr(n))
  {
    assert Pow2(8) == 256;
    BitXorLowBits(b as int, n, 8);
    var r, s := Chr(BitXor(b as int, n)), XorByte(b, Chr(n));
    assert r as int == s as int;
    ByteOfInt(r);
    ByteOfInt(s);
  }

  /** Bit 0 of the XOR of x and y: set exactly when their lowest bits differ. */
  function XorBit(x: int, y: int): (r: int)
    ensures r == 0 || r == 1
    ensures r == 1 <==> x % 2 != y % 2
  {
    if x % 2 == y % 2 then 0 else 1
  }

  /** The XOR of the low n bits of x and y, taken bit by bit. */
  function LowBitsXor(x: int, y: int, n: nat): (r: int)
    decreases n
  {
    if n == 0 then 0 else XorBit(x, y) + 2 * LowBitsXor(x / 2, y / 2, n - 1)
  }

  /** On values of n bits, PHP's integer XOR is the bit-by-bit XOR. */
  lemma {:induction false} BitXorByBits(x: int, y: int, n: nat)
    requires 0 <= x < Pow2(n) && 0 <= y < Pow2(n)
    ensures BitXor(x, y) == LowBitsXor(x, y, n)
    decreases n
  {
    if n == 0 {
      assert x == 0 && y == 0;
    } else {
      assert x / 2 < Pow2(n - 1) && y / 2 < Pow2(n - 1);
      BitXorByBits(x / 2, y / 2, n - 1);
      BitXorStep(x, y);
    }
  }

  /** The eight-bit case of LowBitsXor written out, one term per bit. */
  function ByteXor(x: int, y: int): int {
    XorBit(x, y) + 2 * XorBit(x / 2, y / 2)
      + 4 * XorBit(x / 4, y / 4) + 8 * XorBit(x / 8, y / 8)
      + 16 * XorBit(x / 16, y / 16) + 32 * XorBit(x / 32, y / 32)
      + 64 * XorBit(x / 64, y / 64) + 128 * XorBit(x / 128, y / 128)
  }

  lemma ByteXorUnrolled(x: int, y: int)
    ensures LowBitsXor(x, y, 8) == ByteXor(x, y)
  {
    assert x / 2 / 2 == x / 4 && y / 2 / 2 == y / 4;
    assert x / 4 / 2 == x / 8 && y / 4 / 2 == y / 8;
    assert x / 8 / 2 == x / 16 && y / 8 / 2 == y / 16;
    assert x / 16 / 2 == x / 32 && y / 16 / 2 == y / 32;
    assert x / 32 / 2 == x / 64 && y / 32 / 2 == y / 64;
    assert x / 64 / 2 == x / 128 && y / 64 / 2 == y / 128;
    assert LowBitsXor(x / 128, y / 128, 1) == XorBit(x / 128, y / 128);
    assert LowBitsXor(x / 64, y / 64, 2) == XorBit(x / 64, y / 64) + 2 * LowBitsXor(x / 128, y / 128, 1);
    assert LowBitsXor(x / 32, y / 32, 3) == XorBit(x / 32, y / 32) + 2 * LowBitsXor(x / 64, y / 64, 2);
    assert LowBitsXor(x / 16, y / 16, 4) == XorBit(x / 16, y / 16) + 2 * LowBitsXor(x / 32, y / 32, 3);
    assert LowBitsXor(x / 8, y / 8, 5) == XorBit(x / 8, y / 8) + 2 * LowBitsXor(x / 16, y / 16, 4);
    assert LowBitsXor(x / 4, y / 4, 6) == XorBit(x / 4, y / 4) + 2 * LowBitsXor(x / 8, y / 8, 5);
    assert LowBitsXor(x / 2, y / 2, 7) == XorBit(x / 2, y / 2) + 2 * LowBitsXor(x / 4, y / 4, 6);
    assert LowBitsXor(x, y, 8) == XorBit(x, y) + 2 * LowBitsXor(x / 2, y / 2, 7);
  }

  /** XorByte computes the bit-by-bit XOR of the two bytes' values. */
  lemma XorByteByBits(b: byte, k: byte)
    ensures XorByte(b, k) as int == ByteXor(b as int, k as int)
  {
    ByteRange(b);
    ByteRange(k);
    assert Pow2(8) == 256;
    BitXorByBits(b as int, k as int, 8);
    ByteXorUnrolled(b as int, k as int);
  }

  /** Every byte XORed with the key byte k. */
  function XorOne(bytes: seq<byte>, k: byte): (r: seq<byte>)
    ensures |r| == |bytes|
    ensures forall i :: 0 <= i < |bytes| ==> r[i] == XorByte(bytes[i], k)
    decreases |bytes|
  {
    if bytes == [] then []
    else XorOne(bytes[..|bytes| - 1], k) + [XorByte(bytes[|bytes| - 1], k)]
  }

  /** processXorOne: the key is resolved before the loop, so an empty string
      key fails even when there are no bytes to XOR. */
  function XorWithKey(bytes: seq<byte>, key: XorKey): (r: Result<seq<byte>, Error>)
    ensures r.Failure? <==> key == StrKey([])
    ensures r.Failure? ==> r.error == NotEnoughInput(1, 0)
    ensures r.Success? ==> |r.value| == |bytes|
    ensures r.Success? ==>
      forall i :: 0 <= i < |bytes| ==> r.value[i] == XorByte(bytes[i], KeyByte(key).value)
  {
    match KeyByte(key)
    case Success(k) => Success(XorOne(bytes, k))
    case Failure(e) => Failure(e)
  }

  /** Byte i XORed with key byte i mod |key|. */
  function XorRepeating(bytes: seq<byte>, key: seq<byte>): (r: seq<byte>)
    requires |key| > 0
    ensures |r| == |bytes|
    ensures forall i :: 0 <= i < |bytes| ==> r[i] == XorByte(bytes[i], key[i % |key|])
    decreases |bytes|
  {
    if bytes == [] then []
    else
      var last := |bytes| - 1;
      XorRepeating(bytes[..last], key) + [XorByte(bytes[last], key[last % |key|])]
  }

  /** processXorMany. An empty key fails as soon as there is a byte to XOR:
      `$key[0]` of the empty string is the empty string, which strByteToUint
      rejects. */
  function XorMany(bytes: seq<byte>, key: seq<byte>): (r: Result<seq<byte>, Error>)
    ensures r.Failure? <==> |key| == 0 && |bytes| > 0
    ensures r.Failure? ==> r.error == NotEnoughInput(1, 0)
    ensures r.Success? ==> |r.value| == |bytes|
    ensures r.Success? ==> forall i :: 0 <= i < |bytes| ==> r.value[i] == XorByte(bytes[i], key[i % |key|])
  {
    if bytes == [] then Success([])
    else if key == [] then Failure(NotEnoughInput(1, 0))
    else Success(XorRepeating(bytes, key))
  }

  /** One byte rotated left by `amount` bits: `chr(($b << $amount) | ($b >>
      (8 - $amount)))` on the byte value b. For a count in 0..8 and such a
      small non-negative b, `<<` multiplies by 2^count and `>>` divides by
      it. The low 8 - amount bits of b move up by amount places, and its top
      amount bits come round to the bottom. */
  function RotateByte(b: byte, amount: int): (r: byte)
    requires 0 <= amount <= 8
    ensures r as int == (b as int % Pow2(8 - amount)) * Pow2(amount) + b as int / Pow2(8 - amount)
  {
    RotateByteValue(b as int, amount);
    Chr(BitOr(b as int * Pow2(amount), b as int / Pow2(8 - amount)))
  }

  /** The two shifted copies of v share no bit, so their OR is their sum,
      and chr keeps the rotated value. */
  lemma RotateByteValue(v: int, amount: int)
    requires 0 <= v < 256 && 0 <= amount <= 8
    ensures BitOr(v * Pow2(amount), v / Pow2(8 - amount)) % 256
         == (v % Pow2(8 - amount)) * Pow2(amount) + v / Pow2(8 - amount)
  {
    var p, q := Pow2(8 - amount), Pow2(amount);
    var high, low := v / p, v % p;
    assert p * q == 256 by {
      Pow2Sum(8 - amount, amount);
      assert Pow2(8) == 256;
    }
    RotateArith(v, p, q);
    assert BitAnd(v * q, high) == 0 by {
      BitAndLowZero(v, high, amount);
    }
    BitOrAndSum(v * q, high);
    assert BitOr(v * q, high) == high * 256 + (low * q + high);
    DivMod256(high, low * q + high);
  }

  /** Rotation as arithmetic: with p * q = 256, v < 256 splits into a high
      part v / p below q and a low part v % p. Moving the low part up by q
      and the high part down stays below 256, and dividing by q splits the
      two again. */
  lemma RotateArith(v: int, p: int, q: int)
    requires p > 0 && q > 0 && p * q == 256 && 0 <= v < 256
    ensures v / p < q
    ensures 0 <= (v % p) * q + v / p < 256
    ensures ((v % p) * q + v / p) / q == v % p && ((v % p) * q + v / p) % q == v / p
    ensures v * q == (v / p) * 256 + (v % p) * q
  {
    var high, low := v / p, v % p;
    QuotientBelow(v, p, q);
    MulLe(q, low, p - 1);
    assert q * (p - 1) == 256 - q;
    ModUnique(low * q + high, q, low, high);
    calc {
      v * q;
      (p * high + low) * q;
      p * high * q + low * q;
      high * (p * q) + low * q;
      high * 256 + low * q;
    }
  }

  /** Every byte rotated left by `amount` bits. */
  function Rotated(bytes: seq<byte>, amount: int): (r: seq<byte>)
    requires 0 <= amount <= 8
    ensures |r| == |bytes|
    ensures forall i :: 0 <= i < |bytes| ==> r[i] == RotateByte(bytes[i], amount)
    decreases |bytes|
  {
    if bytes == [] then []
    else Rotated(bytes[..|bytes| - 1], amount) + [RotateByte(bytes[|bytes| - 1], amount)]
  }

  /** processRotateLeft. Only groups of one byte are supported. A shift count
      below zero (amount < 0 for `<<`, 8 - amount < 0 for `>>`) fails, but
      only once there is a byte to shift. */
  function RotateLeft(bytes: seq<byte>, amount: int, groupSize: int): (r: Result<seq<byte>, Error>)
    ensures r.Failure? <==> groupSize != 1 || (|bytes| > 0 && !(0 <= amount <= 8))
    ensures groupSize != 1 ==> r == Failure(UnsupportedGroupSize(groupSize))
    ensures groupSize == 1 && |bytes| > 0 && amount < 0 ==> r == Failure(NegativeShift(amount))
    ensures groupSize == 1 && |bytes| > 0 && amount > 8 ==> r == Failure(NegativeShift(8 - amount))
    ensures r.Success? ==> |r.value| == |bytes|
    ensures r.Success? && |bytes| > 0 ==>
      forall i :: 0 <= i < |bytes| ==> r.value[i] == RotateByte(bytes[i], amount)
  {
    if groupSize != 1 then Failure(UnsupportedGroupSize(groupSize))
    else if bytes == [] then Success([])
    else if amount < 0 then Failure(NegativeShift(amount))
    else if amount > 8 then Failure(NegativeShift(8 - amount))
    else Success(Rotated(bytes, amount))
  }

  // ---------------------------------------------------------------------
  // Laws

  /** XOR with a one-byte key is its own inverse. */
  lemma XorOneInvolutive(bytes: seq<byte>, k: byte)
    ensures XorOne(XorOne(bytes, k), k) == bytes
  {
    var twice := XorOne(XorOne(bytes, k), k);
    forall i | 0 <= i < |bytes| ensures twice[i] == bytes[i] {
      XorByteTwice(bytes[i], k);
    }
  }

  /** processXorOne with the same key undoes itself. */
  lemma XorWithKeyInvolutive(bytes: seq<byte>, key: XorKey)
    requires key != StrKey([])
    ensures XorWithKey(XorWithKey(bytes, key).value, key) == Success(bytes)
  {
    XorOneInvolutive(bytes, KeyByte(key).value);
  }

  /** XOR with a repeating key is its own inverse. */
  lemma XorManyInvolutive(bytes: seq<byte>, key: seq<byte>)
    requires XorMany(bytes, key).Success?
    ensures XorMany(XorMany(bytes, key).value, key) == Success(bytes)
  {
    var once := XorMany(bytes, key).value;
    var twice := XorMany(once, key);
    assert twice.Success?;
    forall i | 0 <= i < |bytes| ensures twice.value[i] == bytes[i] {
      XorByteTwice(bytes[i], key[i % |key|]);
    }
    assert twice.value == bytes;
  }

  lemma XorByteTwice(b: byte, k: byte)
    ensures XorByte(XorByte(b, k), k) == b
  {
    var twice := XorByte(XorByte(b, k), k);
    assert twice as int == b as int by {
      BitXorInvolutive(b as int, k as int);
    }
    ByteOfInt(twice);
    ByteOfInt(b);
  }

  /** Rotating a byte left by a and then by 8 - a restores it. */
  lemma RotateByteInverse(b: byte, amount: int)
    requires 0 <= amount <= 8
    ensures RotateByte(RotateByte(b, amount), 8 - amount) == b
  {
    var p, q := Pow2(8 - amount), Pow2(amount);
    var once := RotateByte(b, amount);
    var twice := RotateByte(once, 8 - amount);
    assert 8 - (8 - amount) == amount;
    assert p * q == 256 by {
      Pow2Sum(8 - amount, amount);
      assert Pow2(8) == 256;
    }
    RotateValueInverse(b as int, once as int, twice as int, p, q);
    ByteOfInt(twice);
    ByteOfInt(b);
  }

  /** Moving the low part of v up by q and its high part down, and then the
      same with the roles of p and q exchanged, gives v back. */
  lemma RotateValueInverse(v: int, w: int, u: int, p: int, q: int)
    requires p > 0 && q > 0 && p * q == 256 && 0 <= v < 256
    requires w == (v % p) * q + v / p && u == (w % q) * p + w / q
    ensures u == v
  {
    RotateArith(v, p, q);
    assert u == (v / p) * p + v % p;
  }

  /** processRotateLeft by a, then by 8 - a, gives the bytes back. */
  lemma RotateLeftInverse(bytes: seq<byte>, amount: int)
    requires 0 <= amount <= 8
    ensures RotateLeft(bytes, amount, 1).Success?
    ensures RotateLeft(RotateLeft(bytes, amount, 1).value, 8 - amount, 1) == Success(bytes)
  {
    var once := RotateLeft(bytes, amount, 1).value;
    var twice := RotateLeft(once, 8 - amount, 1);
    forall i | 0 <= i < |bytes| ensures twice.value[i] == bytes[i] {
      RotateByteInverse(bytes[i], amount);
    }
    assert twice.value == bytes;
  }

  // ---------------------------------------------------------------------
  // The byte strings of the runtime's own tests

  const TestBytes: seq<byte> := [0xab, 0x48, 0xf1, 0x04]

  /** The string key "\x3f" and the integer key 63 both XOR the test bytes
      to the expected output. */
  lemma XorOneExample()
    ensures XorWithKey(TestBytes, StrKey([0x3f])) == Success([0x94, 0x77, 0xce, 0x3b])
    ensures XorWithKey(TestBytes, IntKey(63)) == Success([0x94, 0x77, 0xce, 0x3b])
  {
    assert KeyByte(StrKey([0x3f])) == Success(0x3f);
    assert KeyByte(IntKey(63)) == Success(0x3f) by {
      assert Chr(63) == 0x3f;
    }
    XorOneTestBytes();
  }

  lemma XorOneTestBytes()
    ensures XorOne(TestBytes, 0x3f) == [0x94, 0x77, 0xce, 0x3b]
  {
    XorOneOfFour(TestBytes, 0x3f, [0x94, 0x77, 0xce, 0x3b]);
  }

  /** Four bytes XORed with k give the bit-by-bit XORs of their values. */
  lemma XorOneOfFour(bytes: seq<byte>, k: byte, e: seq<byte>)
    requires |bytes| == 4 && |e| == 4
    requires e[0] as int == ByteXor(bytes[0] as int, k as int)
    requires e[1] as int == ByteXor(bytes[1] as int, k as int)
    requires e[2] as int == ByteXor(bytes[2] as int, k as int)
    requires e[3] as int == ByteXor(bytes[3] as int, k as int)
    ensures XorOne(bytes, k) == e
  {
    var r := XorOne(bytes, k);
    XorTestByte(bytes[0], k, e[0]);
    XorTestByte(bytes[1], k, e[1]);
    XorTestByte(bytes[2], k, e[2]);
    XorTestByte(bytes[3], k, e[3]);
    assert r == [r[0], r[1], r[2], r[3]];
    assert e == [e[0], e[1], e[2], e[3]];
  }

  const TestKey: seq<byte> := [0x3f, 0x2d, 0xa5]

  lemma XorManyExample()
    ensures XorMany(TestBytes, TestKey) == Success([0x94, 0x65, 0x54, 0x3b])
  {
    XorManyOfFour(TestBytes, TestKey, [0x94, 0x65, 0x54, 0x3b]);
  }

  /** Four bytes XORed with a three-byte key give the bit-by-bit XORs of
      their values with key bytes 0, 1, 2 and 0. */
  lemma XorManyOfFour(bytes: seq<byte>, key: seq<byte>, e: seq<byte>)
    requires |bytes| == 4 && |key| == 3 && |e| == 4
    requires e[0] as int == ByteXor(bytes[0] as int, key[0] as int)
    requires e[1] as int == ByteXor(bytes[1] as int, key[1] as int)
    requires e[2] as int == ByteXor(bytes[2] as int, key[2] as int)
    requires e[3] as int == ByteXor(bytes[3] as int, key[0] as int)
    ensures XorMany(bytes, key) == Success(e)
  {
    var r := XorMany(bytes, key).value;
    XorTestByte(bytes[0], key[0], e[0]);
    XorTestByte(bytes[1], key[1], e[1]);
    XorTestByte(bytes[2], key[2], e[2]);
    XorTestByte(bytes[3], key[0], e[3]);
    assert 3 % |key| == 0;
    assert r == [r[0], r[1], r[2], r[3]];
    assert e == [e[0], e[1], e[2], e[3]];
  }

  /** The byte e whose value is the bit-by-bit XOR of b and k's values is
      XorByte(b, k). */
  lemma XorTestByte(b: byte, k: byte, e: byte)
    requires e as int == ByteXor(b as int, k as int)
    ensures XorByte(b, k) == e
  {
    XorByteByBits(b, k);
    SameValue(XorByte(b, k), e);
  }

  const RotateTestBytes: seq<byte> := [0x17, 0x22, 0xc9, 0x04, 0x06, 0x13]

  lemma RotateLeftExample()
    ensures RotateLeft(RotateTestBytes, 3, 1) == Success([0xb8, 0x11, 0x4e, 0x20, 0x30, 0x98])
  {
    RotateLeftByThree(RotateTestBytes, [0xb8, 0x11, 0x4e, 0x20, 0x30, 0x98]);
  }

  /** A left rotation by three moves the top three bits of every byte to
      the bottom. */
  lemma RotateLeftByThree(bytes: seq<byte>, e: seq<byte>)
    requires |bytes| == |e|
    requires forall i :: 0 <= i < |bytes| ==> e[i] as int == (bytes[i] as int % 32) * 8 + bytes[i] as int / 32
    ensures RotateLeft(bytes, 3, 1) == Success(e)
  {
    assert Pow2(5) == 32 && Pow2(3) == 8;
    var r := RotateLeft(bytes, 3, 1);
    if bytes != [] {
      forall i | 0 <= i < |bytes| ensures r.value[i] == e[i] {
        SameValue(r.value[i], e[i]);
      }
      assert r.value == e;
    }
  }
}
