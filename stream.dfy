/** `Kaitai\Struct\Stream`: a cursor over a seekable byte source, with
    positioning, fixed-width integer decoders, byte-run readers, and the
    static byte-array transforms. The source is modelled as the byte sequence
    it holds and the handle's offset as `pos`. */
module KaitaiStream {
  import opened Wrappers
  import opened Php
  import opened StreamErrors
  import opened ByteTransforms

  /** Bytes `fread` delivers for a request of n when `remaining` bytes are
      left: none when n <= 0 (PHP 7 warns and returns false, and the `string`
      return type turns false into ""), otherwise as many as are left, up
      to n. */
  function FreadLength(n: int, remaining: nat): (k: nat)
    ensures k <= remaining
    ensures n <= 0 ==> k == 0
    ensures n > 0 ==> k <= n && (k == n || k == remaining)
  {
    if n <= 0 then 0 else if n < remaining then n else remaining
  }

  /** The terminator argument of readStrz: an integer, which chr turns into a
      one-byte string, or a string. */
  datatype Terminator = IntTerminator(n: int) | StrTerminator(s: seq<byte>)

  /** The string each one-byte read is compared with. */
  function TerminatorBytes(t: Terminator): (s: seq<byte>)
    ensures t.IntTerminator? ==> |s| == 1 && s[0] as int == t.n % 256
    ensures t.StrTerminator? ==> s == t.s
  {
    match t
    case IntTerminator(n) => [Chr(n)]
    case StrTerminator(s) => s
  }

  /** The byte a read can match. Each read is one byte long, so a terminator
      string of any other length never matches. */
  function TerminatorByte(t: Terminator): (b: Option<byte>)
    ensures b.Some? <==> |TerminatorBytes(t)| == 1
    ensures forall x: byte :: [x] == TerminatorBytes(t) <==> b == Some(x)
  {
    var s := TerminatorBytes(t);
    if |s| == 1 then Some(s[0]) else None
  }

  /** The first offset at or after `from` holding the byte t, if any. */
  function FindByte(data: seq<byte>, from: nat, t: Option<byte>): (k: Option<nat>)
    requires from <= |data|
    ensures k.Some? ==> from <= k.value < |data| && t == Some(data[k.value])
    ensures k.Some? ==> forall j :: from <= j < k.value ==> t != Some(data[j])
    ensures k.None? ==> forall j :: from <= j < |data| ==> t != Some(data[j])
    decreases |data| - from
  {
    if from == |data| then None
    else if t == Some(data[from]) then Some(from)
    else FindByte(data, from + 1, t)
  }

  class Stream {
    /** The bytes of the bound source. Its size never changes. */
    const data: seq<byte>
    /** The handle's offset. */
    var pos: nat

    static const SIGN_MASK_16: int := 0x8000
    static const SIGN_MASK_32: int := 0x8000_0000

    ghost predicate Valid()
      reads this
    {
      pos <= |data|
    }

    /** Binds the source and rewinds it to offset 0. */
    constructor (bytes: seq<byte>)
      ensures Valid()
      ensures data == bytes && pos == 0
    {
      data := bytes;
      pos := 0;
    }

    // -------------------------------------------------------------------
    // 1. Stream positioning

    /** A one-byte lookahead: read a byte, and put it back if there was one. */
    method IsEof() returns (eof: bool)
      requires Valid()
      modifies this
      ensures Valid() && pos == old(pos)
      ensures eof <==> pos == |data|
    {
      var c := ReadBytes(1);
      if c == [] {
        return true;
      }
      pos := pos - 1;
      return false;
    }

    method Seek(p: int) returns (r: Outcome<Error>)
      requires Valid()
      modifies this
      ensures Valid()
      ensures 0 <= p < |data| ==> r == Pass && pos == p
      ensures p >= |data| ==> r == Fail(PositionNotBelowSize(p, |data|)) && pos == old(pos)
      ensures p < 0 ==> r == Fail(SeekFailed(p)) && pos == old(pos)
    {
      if p >= Size() {
        return Fail(PositionNotBelowSize(p, Size()));
      }
      if p < 0 {
        // fseek refuses an offset before the start and leaves the handle where it was
        return Fail(SeekFailed(p));
      }
      pos := p;
      return Pass;
    }

    function Pos(): (p: nat)
      reads this
      requires Valid()
      ensures p <= Size()
    {
      pos
    }

    function Size(): (n: nat)
      ensures n == |data|
    {
      |data|
    }

    // -------------------------------------------------------------------
    // 2. Integer numbers

    /** `unpack($f, $this->readBytes(Width(f)))[1]`, returned from a method
        declared `: int`. */
    method ReadUnpacked(f: Format) returns (r: Result<int, Error>)
      requires Valid()
      modifies this
      ensures Valid()
      ensures old(pos) + Width(f) <= |data| ==>
        pos == old(pos) + Width(f) && r == Success(Unpack(f, data[old(pos)..pos]).value)
      ensures old(pos) + Width(f) > |data| ==>
        pos == |data| && r == Failure(NotEnoughInput(Width(f), |data| - old(pos)))
    {
      var bytes := ReadBytes(Width(f));
      match Unpack(f, bytes)
      case Some(v) =>
        r := Success(v);
      case None =>
        r := Failure(NotEnoughInput(Width(f), |bytes|));
    }

    // 2.1. Signed

    method ReadS1() returns (r: Result<int, Error>)
      requires Valid()
      modifies this
      ensures Valid()
      ensures old(pos) < |data| ==>
        pos == old(pos) + 1 && r == Success(AsSigned(data[old(pos)] as int, 1))
      ensures old(pos) == |data| ==> pos == old(pos) && r == Failure(NotEnoughInput(1, 0))
    {
      r := ReadUnpacked(SignedChar);
      if old(pos) < |data| {
        assert data[old(pos)..pos] == [data[old(pos)]];
      }
    }

    method ReadS2be() returns (r: Result<int, Error>)
      requires Valid()
      modifies this
      ensures Valid()
      ensures old(pos) + 2 <= |data| ==>
        pos == old(pos) + 2 && r == Success(AsSigned(BigEndian(data[old(pos)..pos]), 2))
      ensures old(pos) + 2 > |data| ==>
        pos == |data| && r == Failure(NotEnoughInput(2, |data| - old(pos)))
    {
      var u := ReadU2be();
      match u
      case Failure(e) =>
        r := Failure(e);
      case Success(x) =>
        ToSignedIsTwosComplement(x, 2);
        r := Success(ToSigned(x, SIGN_MASK_16));
    }

    method ReadS4be() returns (r: Result<int, Error>)
      requires Valid()
      modifies this
      ensures Valid()
      ensures old(pos) + 4 <= |data| ==>
        pos == old(pos) + 4 && r == Success(AsSigned(BigEndian(data[old(pos)..pos]), 4))
      ensures old(pos) + 4 > |data| ==>
        pos == |data| && r == Failure(NotEnoughInput(4, |data| - old(pos)))
    {
      var u := ReadU4be();
      match u
      case Failure(e) =>
        r := Failure(e);
      case Success(x) =>
        ToSignedIsTwosComplement(x, 4);
        r := Success(ToSigned(x, SIGN_MASK_32));
    }

    /** Reads eight bytes, then gives up. */
    method ReadS8be() returns (r: Result<int, Error>)
      requires Valid()
      modifies this
      ensures Valid()
      ensures pos == old(pos) + FreadLength(8, |data| - old(pos))
      ensures r == Failure(NotImplemented)
    {
      var bytes := ReadBytes(8);
      r := Failure(NotImplemented);
    }

    method ReadS2le() returns (r: Result<int, Error>)
      requires Valid()
      modifies this
      ensures Valid()
      ensures old(pos) + 2 <= |data| ==>
        pos == old(pos) + 2 && r == Success(AsSigned(LittleEndian(data[old(pos)..pos]), 2))
      ensures old(pos) + 2 > |data| ==>
        pos == |data| && r == Failure(NotEnoughInput(2, |data| - old(pos)))
    {
      var u := ReadU2le();
      match u
      case Failure(e) =>
        r := Failure(e);
      case Success(x) =>
        ToSignedIsTwosComplement(x, 2);
        r := Success(ToSigned(x, SIGN_MASK_16));
    }

    method ReadS4le() returns (r: Result<int, Error>)
      requires Valid()
      modifies this
      ensures Valid()
      ensures old(pos) + 4 <= |data| ==>
        pos == old(pos) + 4 && r == Success(AsSigned(LittleEndian(data[old(pos)..pos]), 4))
      ensures old(pos) + 4 > |data| ==>
        pos == |data| && r == Failure(NotEnoughInput(4, |data| - old(pos)))
    {
      var u := ReadU4le();
      match u
      case Failure(e) =>
        r := Failure(e);
      case Success(x) =>
        ToSignedIsTwosComplement(x, 4);
        r := Success(ToSigned(x, SIGN_MASK_32));
    }

    /** Gives up without reading. */
    method ReadS8le() returns (r: Result<int, Error>)
      ensures r == Failure(NotImplemented)
    {
      r := Failure(NotImplemented);
    }

    // 2.2. Unsigned

    method ReadU1() returns (r: Result<int, Error>)
      requires Valid()
      modifies this
      ensures Valid()
      ensures old(pos) < |data| ==> pos == old(pos) + 1 && r == Success(data[old(pos)] as int)
      ensures old(pos) == |data| ==> pos == old(pos) && r == Failure(NotEnoughInput(1, 0))
    {
      r := ReadUnpacked(UnsignedChar);
      if old(pos) < |data| {
        assert data[old(pos)..pos] == [data[old(pos)]];
      }
    }

    method ReadU2be() returns (r: Result<int, Error>)
      requires Valid()
      modifies this
      ensures Valid()
      ensures old(pos) + 2 <= |data| ==>
        pos == old(pos) + 2 && r == Success(BigEndian(data[old(pos)..pos]))
      ensures old(pos) + 2 > |data| ==>
        pos == |data| && r == Failure(NotEnoughInput(2, |data| - old(pos)))
    {
      r := ReadUnpacked(UInt16BE);
      assert old(pos) + 2 <= |data| ==> data[old(pos)..pos][..2] == data[old(pos)..pos];
    }

    method ReadU4be() returns (r: Result<int, Error>)
      requires Valid()
      modifies this
      ensures Valid()
      ensures old(pos) + 4 <= |data| ==>
        pos == old(pos) + 4 && r == Success(BigEndian(data[old(pos)..pos]))
      ensures old(pos) + 4 > |data| ==>
        pos == |data| && r == Failure(NotEnoughInput(4, |data| - old(pos)))
    {
      r := ReadUnpacked(UInt32BE);
      assert old(pos) + 4 <= |data| ==> data[old(pos)..pos][..4] == data[old(pos)..pos];
    }

    /** PHP has no unsigned 64-bit integers: values from 2^63 on wrap. */
    method ReadU8be() returns (r: Result<int, Error>)
      requires Valid()
      modifies this
      ensures Valid()
      ensures old(pos) + 8 <= |data| ==>
        pos == old(pos) + 8 && r == Success(AsSigned(BigEndian(data[old(pos)..pos]), 8))
      ensures old(pos) + 8 > |data| ==>
        pos == |data| && r == Failure(NotEnoughInput(8, |data| - old(pos)))
    {
      r := ReadUnpacked(UInt64BE);
      assert old(pos) + 8 <= |data| ==> data[old(pos)..pos][..8] == data[old(pos)..pos];
    }

    method ReadU2le() returns (r: Result<int, Error>)
      requires Valid()
      modifies this
      ensures Valid()
      ensures old(pos) + 2 <= |data| ==>
        pos == old(pos) + 2 && r == Success(LittleEndian(data[old(pos)..pos]))
      ensures old(pos) + 2 > |data| ==>
        pos == |data| && r == Failure(NotEnoughInput(2, |data| - old(pos)))
    {
      r := ReadUnpacked(UInt16LE);
      assert old(pos) + 2 <= |data| ==> data[old(pos)..pos][..2] == data[old(pos)..pos];
    }

    method ReadU4le() returns (r: Result<int, Error>)
      requires Valid()
      modifies this
      ensures Valid()
      ensures old(pos) + 4 <= |data| ==>
        pos == old(pos) + 4 && r == Success(LittleEndian(data[old(pos)..pos]))
      ensures old(pos) + 4 > |data| ==>
        pos == |data| && r == Failure(NotEnoughInput(4, |data| - old(pos)))
    {
      r := ReadUnpacked(UInt32LE);
      assert old(pos) + 4 <= |data| ==> data[old(pos)..pos][..4] == data[old(pos)..pos];
    }

    /** PHP has no unsigned 64-bit integers: values from 2^63 on wrap. */
    method ReadU8le() returns (r: Result<int, Error>)
      requires Valid()
      modifies this
      ensures Valid()
      ensures old(pos) + 8 <= |data| ==>
        pos == old(pos) + 8 && r == Success(AsSigned(LittleEndian(data[old(pos)..pos]), 8))
      ensures old(pos) + 8 > |data| ==>
        pos == |data| && r == Failure(NotEnoughInput(8, |data| - old(pos)))
    {
      r := ReadUnpacked(UInt64LE);
      assert old(pos) + 8 <= |data| ==> data[old(pos)..pos][..8] == data[old(pos)..pos];
    }

    // -------------------------------------------------------------------
    // 4. Byte arrays

    method ReadBytes(n: int) returns (bytes: seq<byte>)
      requires Valid()
      modifies this
      ensures Valid()
      ensures pos == old(pos) + FreadLength(n, |data| - old(pos))
      ensures bytes == data[old(pos)..pos]
    {
      bytes := data[pos..pos + FreadLength(n, |data| - pos)];
      pos := pos + |bytes|;
    }

    method ReadBytesFull() returns (bytes: seq<byte>)
      requires Valid()
      modifies this
      ensures Valid() && pos == |data|
      ensures bytes == data[old(pos)..]
    {
      bytes := data[pos..];
      pos := |data|;
    }

    /** Reads first, then compares: the cursor has moved either way. */
    method EnsureFixedContents(length: int, expected: seq<byte>) returns (r: Result<seq<byte>, Error>)
      requires Valid()
      modifies this
      ensures Valid()
      ensures pos == old(pos) + FreadLength(length, |data| - old(pos))
      ensures data[old(pos)..pos] == expected ==> r == Success(expected)
      ensures data[old(pos)..pos] != expected ==>
        r == Failure(UnexpectedContents(expected, data[old(pos)..pos]))
    {
      var bytes := ReadBytes(length);
      if bytes != expected {
        return Failure(UnexpectedContents(expected, bytes));
      }
      return Success(bytes);
    }

    // -------------------------------------------------------------------
    // 5. Strings

    /** The byte run of readStrz, before its conversion to the output
        encoding. */
    method ReadStrz(terminator: Terminator, includeTerminator: bool, consumeTerminator: bool, eosError: bool)
      returns (r: Result<seq<byte>, Error>)
      requires Valid()
      modifies this
      ensures Valid()
      ensures match FindByte(data, old(pos), TerminatorByte(terminator))
        case Some(k) =>
          && r == Success(data[old(pos)..k] + (if includeTerminator then [data[k]] else []))
          && pos == (if consumeTerminator then k + 1 else k)
        case None =>
          && pos == |data|
          && r == (if eosError then Failure(NoTerminatorFound(TerminatorBytes(terminator)))
                   else Success(data[old(pos)..]))
    {
      var t := TerminatorBytes(terminator);
      ghost var term := TerminatorByte(terminator);
      var bytes: seq<byte> := [];
      while true
        invariant Valid() && old(pos) <= pos
        invariant bytes == data[old(pos)..pos]
        invariant FindByte(data, old(pos), term) == FindByte(data, pos, term)
        decreases |data| - pos
      {
        var eof := IsEof();
        if eof {
          if eosError {
            assert FindByte(data, pos, term) == None;
            return Failure(NoTerminatorFound(t));
          }
          assert FindByte(data, pos, term) == None;
          assert bytes == data[old(pos)..];
          return Success(bytes);
        }
        ghost var at := pos;
        var b := ReadBytes(1);
        assert b == [data[at]];
        if b == t {
          assert term == Some(data[at]);
          assert FindByte(data, at, term) == Some(at);
          assert bytes == data[old(pos)..at];
          if includeTerminator {
            bytes := bytes + b;
          }
          assert bytes == data[old(pos)..at] + (if includeTerminator then [data[at]] else []);
          if !consumeTerminator {
            var rewound := Seek(pos - 1);
            assert rewound == Pass;
            assert pos == at;
          }
          return Success(bytes);
        }
        assert term != Some(data[at]);
        bytes := bytes + b;
      }
    }

    // -------------------------------------------------------------------
    // 6. Byte array processing

    /** The key is resolved once, before the loop; each step appends one
        byte of `chr(b ^ $key)`. */
    static method ProcessXorOne(bytes: seq<byte>, key: XorKey) returns (r: Result<seq<byte>, Error>)
      ensures r == XorWithKey(bytes, key)
    {
      var k: int;
      match key {
        case IntKey(n) =>
          k := n;
        case StrKey(s) =>
          var v := StrByteToUint(s);
          if v.Failure? {
            return Failure(v.error);
          }
          k := v.value;
      }
      assert KeyByte(key) == Success(Chr(k));
      var xored: seq<byte> := [];
      var i, n := 0, |bytes|;
      while i < n
        invariant 0 <= i <= n
        invariant xored == XorOne(bytes[..i], Chr(k))
      {
        assert bytes[..i + 1][..i] == bytes[..i];
        XorIntKey(bytes[i], k);
        xored := xored + [Chr(BitXor(bytes[i] as int, k))];
        i := i + 1;
      }
      assert bytes[..n] == bytes;
      return Success(xored);
    }

    /** The key index j steps alongside i, modulo the key length. */
    static method ProcessXorMany(bytes: seq<byte>, key: seq<byte>) returns (r: Result<seq<byte>, Error>)
      ensures r == XorMany(bytes, key)
    {
      var keyLength := |key|;
      var xored: seq<byte> := [];
      var i, j, n := 0, 0, |bytes|;
      while i < n
        invariant 0 <= i <= n
        invariant keyLength == 0 ==> i == 0 && j == 0 && xored == []
        invariant keyLength > 0 ==> j == i % keyLength && xored == XorRepeating(bytes[..i], key)
      {
        // `$key[$j]` past the end of the key is the empty string
        var keyValue := StrByteToUint(if j < keyLength then key[j..j + 1] else []);
        if keyValue.Failure? {
          assert keyLength == 0 && bytes != [];
          return Failure(keyValue.error);
        }
        var keyByte := Chr(keyValue.value);
        assert keyByte == key[j] by {
          ChrOfByte(key[j]);
        }
        xored := xored + [XorByte(bytes[i], keyByte)];
        XorRepeatingStep(bytes, key, i);
        assert (j + 1) % keyLength == (i + 1) % keyLength by {
          ModSuccessor(i, keyLength);
        }
        i, j := i + 1, (j + 1) % keyLength;
      }
      assert bytes[..n] == bytes;
      return Success(xored);
    }

    static method ProcessRotateLeft(bytes: seq<byte>, amount: int, groupSize: int) returns (r: Result<seq<byte>, Error>)
      ensures r == RotateLeft(bytes, amount, groupSize)
    {
      if groupSize != 1 {
        return Failure(UnsupportedGroupSize(groupSize));
      }
      var rotated: seq<byte> := [];
      var i, n := 0, |bytes|;
      while i < n
        invariant 0 <= i <= n
        invariant i > 0 ==> 0 <= amount <= 8
        invariant i > 0 ==> rotated == Rotated(bytes[..i], amount)
        invariant i == 0 ==> rotated == []
      {
        var b := bytes[i];
        if amount < 0 {
          // `$byte << $amount` with a negative count
          return Failure(NegativeShift(amount));
        }
        if amount > 8 {
          // `$byte >> (8 - $amount)` with a negative count
          return Failure(NegativeShift(8 - amount));
        }
        assert bytes[..i + 1][..i] == bytes[..i];
        rotated := rotated + [RotateByte(b, amount)];
        i := i + 1;
      }
      assert bytes[..n] == bytes;
      return Success(rotated);
    }

    // -------------------------------------------------------------------
    // Internal

    /** `toSigned`: `($x & ~$mask) - ($x & $mask)`, which takes the masked
        bits off x twice. */
    static function ToSigned(x: int, mask: int): (r: int)
      ensures r == x - 2 * BitAnd(x, mask)
    {
      BitAndSplit(x, mask);
      BitAnd(x, BitNot(mask)) - BitAnd(x, mask)
    }
  }

  /** With a single-bit mask m and 0 <= x < 2m, the mask trick subtracts 2m
      exactly when bit m of x is set. */
  lemma ToSignedSingleBit(x: int, k: nat)
    requires 0 <= x < 2 * Pow2(k)
    ensures Stream.ToSigned(x, Pow2(k)) == if x < Pow2(k) then x else x - 2 * Pow2(k)
  {
    BitAndPow2(x, k);
    BitAndNotPow2(x, k);
    TopBit(x, k);
  }

  /** toSigned with SIGN_MASK_16 / SIGN_MASK_32 is the two's-complement
      reading of a 2- / 4-byte unsigned value. */
  lemma ToSignedIsTwosComplement(x: int, width: nat)
    requires width == 2 || width == 4
    requires 0 <= x < Pow256(width)
    ensures width == 2 ==> Stream.ToSigned(x, Stream.SIGN_MASK_16) == AsSigned(x, width)
    ensures width == 4 ==> Stream.ToSigned(x, Stream.SIGN_MASK_32) == AsSigned(x, width)
  {
    PowersOfTwo();
    if width == 2 {
      ToSignedSingleBit(x, 15);
    } else {
      ToSignedSingleBit(x, 31);
    }
  }

  lemma PowersOfTwo()
    ensures Pow2(15) == 0x8000 && Pow256(2) == 0x1_0000
    ensures Pow2(31) == 0x8000_0000 && Pow256(4) == 0x1_0000_0000
  {
    assert Pow2(8) == 0x100;
    assert Pow2(15) == 0x8000;
    assert Pow2(16) == 0x1_0000;
    assert Pow2(24) == 0x100_0000;
    assert Pow2(31) == 0x8000_0000;
  }

  /** Extending the XORed prefix by one byte appends that byte XORed with its
      key byte. */
  lemma XorRepeatingStep(bytes: seq<byte>, key: seq<byte>, i: nat)
    requires 0 < |key| && i < |bytes|
    ensures XorRepeating(bytes[..i + 1], key)
         == XorRepeating(bytes[..i], key) + [XorByte(bytes[i], key[i % |key|])]
  {
    assert bytes[..i + 1][..i] == bytes[..i];
  }

  /** Stepping a counter modulo m keeps it equal to the step count modulo m. */
  lemma ModSuccessor(i: nat, m: nat)
    requires m > 0
    ensures (i % m + 1) % m == (i + 1) % m
  {
    var q, r := i / m, i % m;
    assert i == m * q + r;
    if r + 1 < m {
      ModUnique(r + 1, m, 0, r + 1);
      ModUnique(i + 1, m, q, r + 1);
    } else {
      ModUnique(r + 1, m, 1, 0);
      ModUnique(i + 1, m, q + 1, 0);
    }
  }
}
