# minhash: element encoding and the empty signature

A Dafny model of the sequential core of the Go package `minhash`
(`minhash.go`). Before a set element is pushed into a sketch, `toBytes` turns
it into the byte sequence the hash functions consume; a string element is
passed through as its raw bytes, unparsed. A separate helper,
`stringIntToByte`, first tries to parse a string as an unsigned 64-bit number
and encodes that number instead; nothing in `minhash.go` calls it. A fresh
sketch starts from a signature in which every slot holds the "unset"
sentinel. This model covers those three pieces:

- `defaultSignature`: a signature of `size` slots, each set to `infinity`
  (2^64 − 1). In Go, `make` panics on a negative size, so the model returns a
  panic result for `size < 0`.
- `toBytes`: the element's dynamic type is an explicit datatype, `Value`.
  A `[]byte` or `string` is passed through. A `uint64` becomes its 8
  little-endian bytes. An `int64` is reinterpreted as `uint64` and encoded the
  same way. Types matched by no case leave the zero buffer of 8 bytes.
  The grouped cases also match `uint`, `uint16`, `uint32`, `int`, `int16` and
  `int32`. For those types the assertion `t.(uint64)` or `t.(int64)` fails, so
  they are modelled as a `TypeAssertion` panic.
- `stringIntToByte`: if `strconv.ParseUint(s, 0, 64)` accepts the string, the
  result is the number's `toBytes`. Otherwise it is the string's own bytes.
  `ParseUint` is library code, so it is a function-typed parameter
  `parse: seq<Byte> -> Option<UInt64>`. Its base-0 prefix rules are not
  modelled.

Go strings are immutable byte sequences, so strings and byte slices are both
`seq<Byte>`, where `Byte` is an integer in 0..255. `uint64` and `int64` are
subset types of `int` with their exact Go ranges. The two's-complement
conversion `uint64(v)` is written out as `v mod 2^64`.

Modules: `Wrappers` (`Option`, `Result`), `LittleEndian` (encoding and
decoding numbers as little-endian bytes, with the round-trip lemmas) and
`MinHash` (the Go types, the three operations and their properties).

A reader might expect that, in `stringIntToByte`, a parsed number and a
fallback string never produce colliding encodings. The code does not guarantee
this. A string of exactly 8 bytes that fails to parse is returned as those raw
8 bytes. Those are also the bytes of the number they spell in little-endian.
The model follows the code. `MinHash.StringIntToByteFallbackCollision` states
exactly when such a collision happens.

## Model

| member | source | states |
|---|---|---|
| `LittleEndian.EncodeByteAt` | minhash.go:124 | byte `i` of the little-endian encoding of `n` is `(n / 256^i) % 256`, the byte `PutUint64` stores at index `i` |
| `LittleEndian.DecodeEncode` | minhash.go:124 | decoding the `width`-byte encoding of any `n < 256^width` gives back `n` |
| `LittleEndian.EncodeDecode` | minhash.go:124 | encoding the decoded value of any byte sequence, at that sequence's length, gives back the same bytes |
| `LittleEndian.EncodeInjective` | minhash.go:124 | two numbers below `256^width` have the same encoding if and only if they are equal |
| `MinHash.AsUnsigned` | minhash.go:126 | the conversion `uint64(v)` of an `int64` yields `v mod 2^64` |
| `MinHash.ReinterpretRoundTrip` | minhash.go:126 | converting int64 to uint64 and back is the identity in both directions, so the conversion loses no information |
| `MinHash.PutUint64` | minhash.go:124 | the `uint64` is written as exactly 8 bytes, with byte `i` equal to bits `8i`..`8i+7` of the value |
| `MinHash.Uint64` | minhash.go:124 | decoder used to state the round trip of line 124 (`binary.LittleEndian.Uint64`; not called by the source): it is the inverse of `PutUint64` on every 8-byte sequence |
| `MinHash.DefaultSignature` | minhash.go:106-112 | succeeds if and only if `size >= 0`; then it has exactly `size` slots, each equal to `infinity` = 2^64 − 1 (line 68); a negative size is the `make` panic |
| `MinHash.ToBytes` | minhash.go:116-129 | yields bytes if and only if the kind is not one of the narrow integer kinds; every `uint64`, `int64` or unmatched kind gives exactly 8 bytes |
| `MinHash.ToBytesUint64RoundTrip` | minhash.go:123-124 | a `uint64` is encoded as 8 bytes that read back as the value; two `uint64`s share an encoding if and only if they are equal |
| `MinHash.ToBytesInt64` | minhash.go:125-126 | an `int64` `v` is encoded as the `uint64` `v mod 2^64`; reading the bytes back as signed gives `v`; two `int64`s share an encoding if and only if they are equal |
| `MinHash.ToBytesPassThrough` | minhash.go:119-122 | a byte slice or string of any length is returned unchanged |
| `MinHash.ToBytesOtherIsZero` | minhash.go:117-118 | an unmatched kind yields the 8 zero bytes, which are also the encoding of the `uint64` 0 |
| `MinHash.ToBytesNarrowPanics` | minhash.go:123-127 | `uint`/`uint16`/`uint32` panic in the `uint64` assertion and `int`/`int16`/`int32` panic in the `int64` assertion; neither yields bytes |
| `MinHash.StringIntToByte` | minhash.go:132-142 | a string that fails to parse is returned as its own bytes; a parsed one gives 8 bytes that read back as the parsed number |
| `MinHash.StringIntToByteParsed` | minhash.go:133-140 | for a parsed string, the result is exactly `toBytes` of the parsed `uint64` |
| `MinHash.StringIntToByteSameNumber` | minhash.go:133-140 | two strings that both parse give identical bytes if and only if they parse to the same number, however they are spelled |
| `MinHash.StringIntToByteFallbackCollision` | minhash.go:132-142 | a string that fails to parse gives the same bytes as a parsed number `n` if and only if it is 8 bytes long and reads little-endian as `n` |

## Left out

- `Intersection` (minhash.go:154-162): float64 division and `math.Floor`. Floating point is not modelled.
- The `MinHash` interface and the free `Similarity` function (minhash.go:79-103): an interface and a one-line dynamic dispatch. No implementation of it is part of this model.
- `HashFunc` (minhash.go:71): the hash functions that consume the bytes are external.
- `strconv.ParseUint` internals: it is the parameter `parse`. Base-0 prefix handling, such as `0x` or a leading `0` for octal, is therefore not modelled.
- `log.Println` (minhash.go:136): a side effect only.
- Aliasing of the `[]byte` case (minhash.go:120): bytes are immutable values. The model cannot show that the result shares storage with the caller's slice.
- `MaxUint` and `MaxInt` (minhash.go:66-67): they depend on the platform's word size, and the modelled code does not use them.
- `MinHash.DefaultSignature`: an allocation that fails because `size` is too large is not modelled. Only the negative-size panic is.
