# Kaitai Struct PHP runtime: the `Stream` class in Dafny

This project models `Kaitai\Struct\Stream`, the cursor over a seekable byte
source that generated Kaitai Struct parsers read from, and proves what its
operations compute. The byte source is modelled as the immutable sequence of
bytes it holds (`Stream.data`). The handle's offset is the mutable field
`Stream.pos`. Every failure the class or the PHP engine raises inside an
operation is a value of `StreamErrors.Error`, returned in a `Result` or
`Outcome`.

Files and modules:

- `wrappers.dfy` (`Wrappers`): `Option`, `Result` and `Outcome`.
- `php.dfy` (`Php`): the parts of PHP the class relies on. These are bytes
  (integer values 0..255), `chr`, the integer operators `&`, `|`, `^` and
  `~` on unbounded two's complement, and `unpack` with the formats
  `C c n N J v V P`. Big- and little-endian assembly and two's-complement
  reinterpretation are defined here, with their round trips against `pack`.
- `errors.dfy` (`StreamErrors`): one constructor per way an operation fails.
- `transforms.dfy` (`ByteTransforms`): what `processXorOne`,
  `processXorMany` and `processRotateLeft` compute, as functions, with their
  inverse laws and the byte strings of the runtime's tests.
- `stream.dfy` (`KaitaiStream`): the `Stream` class. Its methods change
  `pos` and state the new position and the result. The three transforms are
  static methods with the source's loops, each proved equal to its function
  in `ByteTransforms`.
- `scenarios.dfy` (`StreamScenarios`): call sequences from the runtime's
  tests on a fresh stream, with what this code returns for them.

The model follows PHP 7.0 semantics where the version matters:

- `fread` with a count of zero or less warns and returns `false`. The
  `string` return type of `readBytes` turns that into `""`, and the cursor
  does not move.
- `unpack` with too little input returns `false`. Indexing it gives
  `null`, which the `int` return type of every integer reader rejects. The
  model reports this as `NotEnoughInput`.
- A shift by a negative count throws an `ArithmeticError` (`NegativeShift`).
- `strByteToUint("")` fails the same way as a short integer read: `unpack`
  returns `false` and the `int` return type rejects the `null` taken from
  it (`NotEnoughInput(1, 0)`). An empty string key for `processXorOne`
  fails there, and so does an empty key for `processXorMany` when there is
  a byte to XOR, since `$key[0]` of `""` is `""`. The `% 0` that would
  follow is never reached.

Where the runtime's tests and the code disagree, the model follows the code:

- `seek` refuses any position at or beyond the size (`Stream.php:48`). The
  tests expect `seek(size)` to succeed. `StreamScenarios.SeekToSize` states
  what the code does.
- `ensureFixedContents` on an exhausted stream reads nothing and reports
  a mismatch. The tests expect an end-of-stream error.
  `StreamScenarios.EnsureFixedContentsTwice` states what the code does.
  The test passes only the expected bytes (`StreamTest.php:391, 394`),
  which does not fit the code's `(int $length, string $expectedBytes)`
  signature (`Stream.php:238`); the scenario supplies the length 5 itself.
- `readS8be` and `readS8le` fail with "Not implemented yet". The tests
  expect values.

## Model

| member | source | states |
|---|---|---|
| KaitaiStream.Stream.constructor | lib/Kaitai/Struct/Stream.php:14-20 | the stream holds the given bytes and starts at offset 0 |
| KaitaiStream.Stream.IsEof | lib/Kaitai/Struct/Stream.php:26-42 | true exactly when the cursor is at the end; the one-byte lookahead is rewound, so `pos` is unchanged |
| KaitaiStream.Stream.Seek | lib/Kaitai/Struct/Stream.php:47-55 | succeeds and moves to p exactly when 0 <= p < size; p >= size fails with the size check, p < 0 fails in `fseek`; a failure leaves `pos` unchanged |
| KaitaiStream.Stream.Pos | lib/Kaitai/Struct/Stream.php:57-59 | the offset, never beyond the size |
| KaitaiStream.Stream.Size | lib/Kaitai/Struct/Stream.php:61-65 | the number of bytes of the source, which no operation changes |
| KaitaiStream.Stream.ReadS1 | lib/Kaitai/Struct/Stream.php:78-80 | the next byte read as two's complement, advancing by one; at the end, `NotEnoughInput(1, 0)` |
| KaitaiStream.Stream.ReadS2be | lib/Kaitai/Struct/Stream.php:85-87 | the two's-complement reading of the next two bytes, big-endian; with fewer left, consumes them and fails |
| KaitaiStream.Stream.ReadS4be | lib/Kaitai/Struct/Stream.php:89-91 | the two's-complement reading of the next four bytes, big-endian; with fewer left, consumes them and fails |
| KaitaiStream.Stream.ReadS8be | lib/Kaitai/Struct/Stream.php:93-95 | consumes up to eight bytes, then fails with `NotImplemented` |
| KaitaiStream.Stream.ReadS2le | lib/Kaitai/Struct/Stream.php:115-117 | the two's-complement reading of the next two bytes, little-endian; with fewer left, consumes them and fails |
| KaitaiStream.Stream.ReadS4le | lib/Kaitai/Struct/Stream.php:119-121 | the two's-complement reading of the next four bytes, little-endian; with fewer left, consumes them and fails |
| KaitaiStream.Stream.ReadS8le | lib/Kaitai/Struct/Stream.php:123-125 | fails with `NotImplemented` without reading |
| KaitaiStream.Stream.ReadU1 | lib/Kaitai/Struct/Stream.php:144-146 | the next byte as 0..255, advancing by one; at the end, `NotEnoughInput(1, 0)` |
| KaitaiStream.Stream.ReadU2be | lib/Kaitai/Struct/Stream.php:151-153 | the big-endian value of the next two bytes, advancing by two; with fewer left, consumes them and fails |
| KaitaiStream.Stream.ReadU4be | lib/Kaitai/Struct/Stream.php:155-157 | the big-endian value of the next four bytes, advancing by four; with fewer left, consumes them and fails |
| KaitaiStream.Stream.ReadU8be | lib/Kaitai/Struct/Stream.php:159-161 | the 64-bit two's-complement reading of the next eight bytes, big-endian (PHP has no unsigned 64-bit integers) |
| KaitaiStream.Stream.ReadU2le | lib/Kaitai/Struct/Stream.php:166-168 | the little-endian value of the next two bytes, advancing by two; with fewer left, consumes them and fails |
| KaitaiStream.Stream.ReadU4le | lib/Kaitai/Struct/Stream.php:170-172 | the little-endian value of the next four bytes, advancing by four; with fewer left, consumes them and fails |
| KaitaiStream.Stream.ReadU8le | lib/Kaitai/Struct/Stream.php:174-176 | the 64-bit two's-complement reading of the next eight bytes, little-endian |
| KaitaiStream.Stream.ReadBytes | lib/Kaitai/Struct/Stream.php:222-225 | returns `data[pos .. min(pos + n, size)]` and advances by its length; nothing for n <= 0 |
| KaitaiStream.Stream.ReadBytesFull | lib/Kaitai/Struct/Stream.php:227-228 | returns everything after the cursor and leaves it at the end |
| KaitaiStream.Stream.EnsureFixedContents | lib/Kaitai/Struct/Stream.php:238-245 | the bytes read when they equal the expected ones, otherwise `UnexpectedContents` with both; the cursor has advanced either way |
| KaitaiStream.Stream.ReadStrz | lib/Kaitai/Struct/Stream.php:259-284 | with a first terminator at k: the bytes before it, plus the terminator if included, and `pos` at k + 1 if consumed, else at k; with none: `NoTerminatorFound` if `eosError`, else the rest, with `pos` at the end either way |
| KaitaiStream.Stream.ReadUnpacked | lib/Kaitai/Struct/Stream.php:78-176 | with enough bytes left, advances by the format's width and returns `unpack` of exactly those bytes; otherwise consumes the rest and fails with `NotEnoughInput(width, bytes left)` |
| KaitaiStream.Stream.ProcessXorOne | lib/Kaitai/Struct/Stream.php:295-304 | the loop's output is `XorWithKey`: an empty string key fails in `strByteToUint` with `NotEnoughInput(1, 0)` before the loop; any other key XORs every byte with the key's low byte |
| KaitaiStream.Stream.ProcessXorMany | lib/Kaitai/Struct/Stream.php:306-313 | the loop with its key index `j` computes `XorMany`, including the `strByteToUint` failure of an empty key on non-empty bytes |
| KaitaiStream.Stream.ProcessRotateLeft | lib/Kaitai/Struct/Stream.php:315-325 | the loop computes `RotateLeft`, including its group-size and shift-count failures |
| KaitaiStream.TerminatorBytes | lib/Kaitai/Struct/Stream.php:260-262 | the terminator each read is compared with, and the payload of `NoTerminatorFound`: `chr(n)`, one byte of value n mod 256, for an integer, the string itself otherwise |
| KaitaiStream.TerminatorByte | lib/Kaitai/Struct/Stream.php:260-262 | an integer terminator becomes the byte `chr(n)`; a one-byte read can match a terminator exactly when it is one byte long, and then only that byte |
| KaitaiStream.FindByte | lib/Kaitai/Struct/Stream.php:264-282 | the first offset at or after the start that holds the terminator byte, or none if no such offset exists |
| KaitaiStream.ToSignedSingleBit | lib/Kaitai/Struct/Stream.php:341-343 | for a mask 2^k and 0 <= x < 2^(k+1), `toSigned(x, mask)` is x below the mask and x - 2 * mask from it on |
| KaitaiStream.ToSignedIsTwosComplement | lib/Kaitai/Struct/Stream.php:341-343 | with SIGN_MASK_16 on a 2-byte value and SIGN_MASK_32 on a 4-byte value, `toSigned` is the two's-complement reading |
| KaitaiStream.FreadLength | lib/Kaitai/Struct/Stream.php:224 | `fread` returns nothing for a count of zero or less, never more than the bytes left, and the full count unless the bytes left run out first |
| KaitaiStream.Stream.ToSigned | lib/Kaitai/Struct/Stream.php:341-343 | `($x & ~$mask) - ($x & $mask)` is x minus twice the bits of x under the mask |
| KaitaiStream.XorRepeatingStep | lib/Kaitai/Struct/Stream.php:309-310 | one more loop iteration appends byte i XORed with key byte i mod the key length |
| KaitaiStream.ModSuccessor | lib/Kaitai/Struct/Stream.php:309 | advancing the key index as `($j + 1) % $keyLength` keeps it equal to the byte index modulo the key length |
| ByteTransforms.StrByteToUint | lib/Kaitai/Struct/Stream.php:354-357 | succeeds exactly when the string is non-empty, with its first byte as 0..255; the empty string fails with `NotEnoughInput(1, 0)` |
| ByteTransforms.KeyValue | lib/Kaitai/Struct/Stream.php:296-298 | an integer key is kept; a string key becomes its first byte's value; the empty string key fails with `NotEnoughInput(1, 0)`, and only it fails |
| ByteTransforms.KeyByte | lib/Kaitai/Struct/Stream.php:296-301 | the byte every input byte is XORed with: `chr` of an integer key, the first byte of a string key; fails exactly for the empty string key |
| ByteTransforms.XorOne | lib/Kaitai/Struct/Stream.php:300-302 | same length; byte i is byte i XOR the key byte |
| ByteTransforms.XorWithKey | lib/Kaitai/Struct/Stream.php:295-304 | fails with `NotEnoughInput(1, 0)` exactly for the empty string key; otherwise same length, byte i XORed with the key's byte |
| ByteTransforms.XorMany | lib/Kaitai/Struct/Stream.php:306-313 | fails with `NotEnoughInput(1, 0)` exactly when the key is empty and there is a byte to XOR; otherwise same length, with byte i XORed with key byte i mod the key length |
| ByteTransforms.RotateLeft | lib/Kaitai/Struct/Stream.php:315-325 | fails exactly when the group size is not 1 (`UnsupportedGroupSize`), or when there is a byte and the amount is outside 0..8 (`NegativeShift` of the negative shift count, `amount` or `8 - amount`); otherwise same length, each byte rotated left |
| ByteTransforms.XorOneInvolutive | lib/Kaitai/Struct/Stream.php:300-302 | XOR with a one-byte key applied twice gives the bytes back |
| ByteTransforms.XorWithKeyInvolutive | lib/Kaitai/Struct/Stream.php:295-304 | for every key but the empty string, `processXorOne` applied twice with the same key succeeds and gives the bytes back |
| ByteTransforms.XorManyInvolutive | lib/Kaitai/Struct/Stream.php:306-313 | XOR with a repeating key applied twice gives the bytes back |
| ByteTransforms.RotateByteInverse | lib/Kaitai/Struct/Stream.php:322-323 | rotating a byte left by a and then by 8 - a restores it |
| ByteTransforms.RotateLeftInverse | lib/Kaitai/Struct/Stream.php:315-325 | for 0 <= a <= 8, `processRotateLeft` by a and then by 8 - a succeeds and gives the bytes back |
| ByteTransforms.XorOneExample | test/KaitaiTest/Struct/StreamTest.php:401-411 | with the string key "\x3f" and with the integer key 63, the test bytes XOR to the expected output |
| ByteTransforms.XorManyExample | test/KaitaiTest/Struct/StreamTest.php:413-419 | the test bytes XORed with the three-byte key give the expected output |
| ByteTransforms.RotateLeftExample | test/KaitaiTest/Struct/StreamTest.php:421-426 | the test bytes rotated left by 3 give the expected output |
| Php.BitAnd | lib/Kaitai/Struct/Stream.php:342 | `$x & $y` on two's complement: with a non-negative operand the result lies between 0 and that operand, and two negative operands give a negative result |
| Php.BitAndBits | lib/Kaitai/Struct/Stream.php:342 | bit k of `x & y` is set exactly when bit k is set in both x and y, so `BitAnd` is the bitwise AND |
| Php.BitAndRange | lib/Kaitai/Struct/Stream.php:342 | operands in [-2^k, 2^k) give `x & y` in that range, so with k = 63 the AND of two PHP integers is the 64-bit AND |
| Php.BitNot | lib/Kaitai/Struct/Stream.php:342 | `~$x` flips the sign and keeps 64-bit integers within 64 bits |
| Php.BitNotBits | lib/Kaitai/Struct/Stream.php:342 | bit k of `~x` is the opposite of bit k of x |
| Php.BitOr | lib/Kaitai/Struct/Stream.php:322 | PHP's bitwise OR of two integers on two's complement: the result is negative exactly when an operand is; BitOrAndSum pins it down as the sum less the shared bits |
| Php.BitXor | lib/Kaitai/Struct/Stream.php:301 | `$x ^ $y` on two's complement: the result is negative exactly when one operand is; BitXorAndSum and ByteTransforms.BitXorByBits pin it down as the sum less twice the shared bits and, on n-bit values, the bit-by-bit XOR |
| Php.BitOrAndSum | lib/Kaitai/Struct/Stream.php:322 | the OR of x and y plus `x & y` is x + y, so the OR of two values with no bit in common is their sum |
| Php.BitXorAndSum | lib/Kaitai/Struct/Stream.php:301 | `x ^ y` plus twice `x & y` is x + y |
| Php.BitXorInvolutive | lib/Kaitai/Struct/Stream.php:301 | XOR with the same y twice gives x back |
| Php.BitXorLowBits | lib/Kaitai/Struct/Stream.php:301 | the low k bits of `x ^ y` depend only on the low k bits of y, so XOR with a wide key and XOR with its low byte agree in the low byte |
| ByteTransforms.XorByte | lib/Kaitai/Struct/Stream.php:301 | `chr(strByteToUint($b) ^ $k)` on two byte values, as in processXorOne here and processXorMany at line 310: the byte whose value is the integer XOR of the two, which chr keeps whole |
| ByteTransforms.XorIntKey | lib/Kaitai/Struct/Stream.php:301 | with an integer key n, `chr($b ^ $n)` is b XORed with the byte `chr(n)`, for every n, negative and wide ones included |
| ByteTransforms.BitXorByBits | lib/Kaitai/Struct/Stream.php:301 | on values of n bits, the integer XOR is the bit-by-bit XOR: bit i set exactly when bits i of the operands differ |
| ByteTransforms.XorByteByBits | lib/Kaitai/Struct/Stream.php:310 | the value of XorByte(b, k) is the sum over the eight bit positions of 2^i times whether bits i of b and k differ |
| ByteTransforms.RotateByte | lib/Kaitai/Struct/Stream.php:322 | the OR of `$b << $a` and `$b >> (8 - $a)`, through chr, for 0 <= a <= 8: the low 8 - a bits of b move up by a places and its top a bits come round to the bottom |
| ByteTransforms.RotateByteValue | lib/Kaitai/Struct/Stream.php:322 | the two shifted copies of a byte value share no bit, so their OR, cut to eight bits by chr, is the rotated value |
| ByteTransforms.RotateLeftByThree | test/KaitaiTest/Struct/StreamTest.php:421-426 | rotating left by three gives, for every byte, its low five bits moved up and its top three bits at the bottom |
| Php.Chr | lib/Kaitai/Struct/Stream.php:301 | `chr(n)` is the byte whose value is n modulo 256, for negative n too |
| Php.ChrOfByte | lib/Kaitai/Struct/Stream.php:310 | `chr` of a byte's value is that byte |
| Php.BitAndSplit | lib/Kaitai/Struct/Stream.php:342 | the bits of x under a mask and the bits of x under its complement add up to x |
| Php.BigEndian | lib/Kaitai/Struct/Stream.php:151-161 | the value of n bytes most significant first lies in [0, 256^n) |
| Php.LittleEndian | lib/Kaitai/Struct/Stream.php:166-176 | the value of n bytes least significant first lies in [0, 256^n) |
| Php.BigEndianRoundTrip | lib/Kaitai/Struct/Stream.php:151-161 | encoding the big-endian value of bytes back to the same width gives the bytes |
| Php.ToBigEndianRoundTrip | lib/Kaitai/Struct/Stream.php:151-161 | every value below 256^n is the big-endian value of its n-byte encoding |
| Php.LittleEndianRoundTrip | lib/Kaitai/Struct/Stream.php:166-176 | encoding the little-endian value of bytes back to the same width gives the bytes |
| Php.ToLittleEndianRoundTrip | lib/Kaitai/Struct/Stream.php:166-176 | every value below 256^n is the little-endian value of its n-byte encoding |
| Php.LittleEndianIsReversedBigEndian | lib/Kaitai/Struct/Stream.php:166-176 | the little-endian value of bytes is the big-endian value of the reversed bytes |
| Php.AsSigned | lib/Kaitai/Struct/Stream.php:159-161 | the two's-complement reading lies in [-256^n / 2, 256^n / 2) and is congruent to the unsigned value modulo 256^n |
| Php.Unpack | lib/Kaitai/Struct/Stream.php:144-176 | a value exactly when there are enough bytes for the format, and every value fits a 64-bit PHP integer |
| Php.UnpackUnsignedRange | lib/Kaitai/Struct/Stream.php:144-172 | formats `C n N v V` give values in [0, 256^width) |
| Php.UnpackSignedRange | lib/Kaitai/Struct/Stream.php:78-176 | formats `c` (`readS1`, lines 78-80), `J` (`readU8be`, lines 159-161) and `P` (`readU8le`, lines 174-176) give values in [-256^width / 2, 256^width / 2) |
| Php.UnpackPackRoundTrip | lib/Kaitai/Struct/Stream.php:144-176 | packing the unpacked value gives the bytes back, so no two byte strings decode alike |
| Php.PackUnpackRoundTrip | lib/Kaitai/Struct/Stream.php:144-176 | every value in the format's range is decoded from its encoding |
| Php.UnpackAllOnes64 | test/KaitaiTest/Struct/StreamTest.php:299-314 | eight 0xff bytes read as -1 in both byte orders |
| StreamScenarios.ReadBytesFullTwice | test/KaitaiTest/Struct/StreamTest.php:370-384 | after a seek, the first full read returns the rest and the second returns nothing |
| StreamScenarios.ReadBytesConsecutively | test/KaitaiTest/Struct/StreamTest.php:348-354 | two consecutive reads return adjacent slices of the requested lengths |
| StreamScenarios.ReadEachS1 | test/KaitaiTest/Struct/StreamTest.php:34-66 | seeking to each offset and reading a signed byte gives every byte in [-128, 128): the byte itself below 0x80, the byte minus 256 from there on |
| StreamScenarios.EnsureFixedContentsTwice | test/KaitaiTest/Struct/StreamTest.php:386-399 | "<?php" matches once; the second call, at the end, reports a mismatch against the empty read |
| StreamScenarios.SeekToSize | lib/Kaitai/Struct/Stream.php:48-50 | seeking to the size fails, and the cursor stays where it was |

## Left out

- `processZlib` is left out: it only calls PHP's `gzuncompress` (zlib, RFC 1950), which is not part of this model.
- `readF4be`, `readF8be`, `readF4le` and `readF8le` are left out: they read bytes and then throw "Not implemented yet", and floating point is not modelled.
- Text conversion is left out: `bytesToEncoding` and `defaultEncoding` call `iconv`. `ReadStrz` returns the byte run before conversion. `readStrEos` and `readStrByteLimit` are `ReadBytesFull` and `ReadBytes` followed by that conversion.
- `lib/Kaitai/Struct/Struct.php` and the error classes under `lib/Kaitai/Struct/Error/` are not part of this model. The stream never throws those classes, and its own failures are the constructors of `StreamErrors.Error`.
- The constructor's 64-bit platform check and the kind of backing resource (file, memory, string) are left out. The stream is its bytes, starting at offset 0.
- The unused `SIGN_MASK_64` constant is left out.
- KaitaiStream.Stream.IsEof: the failure of the rewinding `fseek` is left out, because it cannot fail on an in-memory byte sequence after a successful read.
- KaitaiStream.Stream.Seek: positions above `PHP_INT_MAX`, which PHP turns into floats, are left out. A negative position fails in `fseek`. The model assumes a handle whose failed seek keeps its offset, as a plain-file handle does. A `php://memory` handle may instead end up at its end, with `ftell` reporting -1; that behaviour is not modelled.
- Integers are unbounded. `toSigned` and the readers only see values of at most eight bytes, which always fit. Only the 64-bit wrap of `J` and `P` matters, and `Php.AsSigned` states it.
- ByteTransforms.KeyByte: a key that is neither an integer nor a string (PHP would coerce it) is left out. An integer key's effect is stated through its low byte: `chr` keeps only the low byte of `b ^ key`, and `ByteTransforms.XorIntKey` proves that this is `b` XOR the low byte of the key.
- KaitaiStream.ToSignedSingleBit holds only for single-bit masks. For other masks the mask trick is not a two's-complement reading, and the class never uses one.
- Version-dependent engine behaviour is fixed to PHP 7.0: a non-positive `fread` count reads nothing, and short `unpack` input fails the integer reader. Later versions throw on the former.
