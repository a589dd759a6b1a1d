/** The sequential core of the minhash package: the empty signature, and the
    conversion of a set element into the byte sequence that is handed to the
    hash functions. */
module MinHash {
  import opened Wrappers
  import opened LittleEndian

  /** 2^64: the number of distinct 64-bit words. */
  const WORD: nat := 0x1_0000_0000_0000_0000

  /** Go's `uint64`. */
  type UInt64 = n: int | 0 <= n < 0x1_0000_0000_0000_0000

  /** Go's `int64`. */
  type Int64 = v: int | -0x8000_0000_0000_0000 <= v < 0x8000_0000_0000_0000

  /** The sentinel of an unset signature slot: the largest `uint64`. */
  const Infinity: UInt64 := 0xFFFF_FFFF_FFFF_FFFF

  /** One slot per virtual hash function, in a fixed order. */
  type Signature = seq<UInt64>

  /** The ways the modelled code can panic at run time. */
  datatype Panic =
    | MakeLenOutOfRange(len: int)   // `make` with a negative length
    | TypeAssertion(target: Target) // `t.(uint64)` / `t.(int64)` on another type

  /** The type named by a failing type assertion. */
  datatype Target = AssertUint64 | AssertInt64

  /** Unsigned kinds that reach the `uint64` case but are not `uint64`. */
  datatype UnsignedKind = Uint | Uint16 | Uint32

  /** Signed kinds that reach the `int64` case but are not `int64`. */
  datatype SignedKind = Int | Int16 | Int32

  /** A set element as the dynamic type of the `interface{}` it arrives in.
      The narrow integer kinds carry no value: the type assertion that
      handles them fails whatever the value is. `Other` is every remaining
      dynamic type (`bool`, `uint8`, `float64`, a struct, `nil`, ...). */
  datatype Value =
    | ByteSlice(bytes: seq<Byte>)
    | Str(text: seq<Byte>)
    | U64(u: UInt64)
    | I64(i: Int64)
    | NarrowUnsigned(ukind: UnsignedKind)
    | NarrowSigned(skind: SignedKind)
    | Other

  /** The Go conversion `uint64(v)` of an `int64`: the two's-complement bit
      pattern read as unsigned, that is `v` modulo 2^64. */
  function AsUnsigned(v: Int64): (u: UInt64)
    ensures u == v % WORD
  {
    if v < 0 then v + WORD else v
  }

  /** The Go conversion `int64(u)` of a `uint64`: the bit pattern read as
      two's complement. */
  function AsSigned(u: UInt64): (v: Int64)
    ensures v % WORD == u % WORD
  {
    if u < 0x8000_0000_0000_0000 then u else u - WORD
  }

  /** Reinterpreting as unsigned and back loses nothing, and the other way
      round. */
  lemma ReinterpretRoundTrip(v: Int64, u: UInt64)
    ensures AsSigned(AsUnsigned(v)) == v
    ensures AsUnsigned(AsSigned(u)) == u
  {
  }

  /** `binary.LittleEndian.PutUint64` into a fresh 8-byte buffer: byte `i`
      holds bits `8*i` to `8*i+7` of `n`. */
  function PutUint64(n: UInt64): (b: seq<Byte>)
    ensures |b| == 8
    ensures forall i :: 0 <= i < 8 ==> b[i] == (n / Pow256(i)) % 256
  {
    EncodeBytes(n, 8);
    Encode(n, 8)
  }

  /** `binary.LittleEndian.Uint64`: the number held by 8 little-endian bytes. */
  function Uint64(b: seq<Byte>): (n: UInt64)
    requires |b| == 8
    ensures PutUint64(n) == b
  {
    EncodeDecode(b);
    Decode(b)
  }

  /** Eight zero bytes, the buffer `toBytes` allocates before its switch. */
  const Zeros: seq<Byte> := [0, 0, 0, 0, 0, 0, 0, 0]

  /** The empty signature of `size` slots, every slot set to the sentinel.
      A negative size makes `make` panic. */
  method DefaultSignature(size: int) returns (r: Result<Signature, Panic>)
    ensures r.Failure? <==> size < 0
    ensures r.Failure? ==> r.error == MakeLenOutOfRange(size)
    ensures r.Success? ==> |r.value| == size
    ensures r.Success? ==> forall i :: 0 <= i < size ==> r.value[i] == Infinity
  {
    if size < 0 {
      return Failure(MakeLenOutOfRange(size));
    }
    var s: Signature := seq(size, _ => 0);
    var i := 0;
    while i < size
      invariant 0 <= i <= size
      invariant |s| == size
      invariant forall j :: 0 <= j < i ==> s[j] == Infinity
    {
      s := s[i := Infinity];
      i := i + 1;
    }
    return Success(s);
  }

  /** `toBytes`: the byte sequence a set element is hashed as. Byte slices
      and strings pass through; `uint64` and `int64` become their 8-byte
      little-endian form; the other integer kinds of the two grouped cases
      fail their type assertion; any other kind leaves the zero buffer. */
  function ToBytes(x: Value): (r: Result<seq<Byte>, Panic>)
    ensures r.Success? <==> !x.NarrowUnsigned? && !x.NarrowSigned?
    ensures r.Success? && (x.U64? || x.I64? || x.Other?) ==> |r.value| == 8
  {
    match x
    case ByteSlice(bs) => Success(bs)
    case Str(s) => Success(s)
    case U64(n) => Success(PutUint64(n))
    case I64(v) => Success(PutUint64(AsUnsigned(v)))
    case NarrowUnsigned(_) => Failure(TypeAssertion(AssertUint64))
    case NarrowSigned(_) => Failure(TypeAssertion(AssertInt64))
    case Other => Success(Zeros)
  }

  /** `stringIntToByte`: a string that `parse` (Go's
      `strconv.ParseUint(s, 0, 64)`) accepts is hashed as the number's bytes;
      any other string as its own bytes. */
  function StringIntToByte(parse: seq<Byte> -> Option<UInt64>, s: seq<Byte>): (r: seq<Byte>)
    ensures parse(s).None? ==> r == s
    ensures parse(s).Some? ==> |r| == 8 && Uint64(r) == parse(s).value
  {
    match parse(s)
    case None => s
    case Some(n) =>
      var b := ToBytes(U64(n)).value;
      assert Uint64(b) == n by { EncodeInjective(Uint64(b), n, 8); }
      b
  }

  /** A `uint64` element is hashed as 8 bytes from which it is read back, so
      two `uint64` elements share an encoding exactly when they are equal. */
  lemma ToBytesUint64RoundTrip(a: UInt64, b: UInt64)
    ensures ToBytes(U64(a)).Success? && |ToBytes(U64(a)).value| == 8
    ensures Uint64(ToBytes(U64(a)).value) == a
    ensures ToBytes(U64(a)) == ToBytes(U64(b)) <==> a == b
  {
    EncodeInjective(Uint64(PutUint64(a)), a, 8);
    EncodeInjective(a, b, 8);
  }

  /** An `int64` element is hashed as the `uint64` with the same bit pattern,
      `v` modulo 2^64; reading those bytes back as signed gives `v`. */
  lemma ToBytesInt64(v: Int64, w: Int64)
    ensures ToBytes(I64(v)) == ToBytes(U64(v % WORD))
    ensures AsSigned(Uint64(ToBytes(I64(v)).value)) == v
    ensures ToBytes(I64(v)) == ToBytes(I64(w)) <==> v == w
  {
    var u, u' := AsUnsigned(v), AsUnsigned(w);
    assert ToBytes(I64(v)) == ToBytes(U64(u));
    assert ToBytes(I64(w)) == ToBytes(U64(u'));
    ToBytesUint64RoundTrip(u, u');
    assert AsSigned(u) == v;
    assert u == u' ==> v == w by {
      assert AsSigned(u') == w;
    }
  }

  /** Byte slices and strings are hashed as themselves, whatever their
      length. */
  lemma ToBytesPassThrough(bs: seq<Byte>)
    ensures ToBytes(ByteSlice(bs)) == Success(bs)
    ensures ToBytes(Str(bs)) == Success(bs)
  {
  }

  /** A kind no case matches leaves the zero buffer, the same bytes as the
      `uint64` zero. */
  lemma ToBytesOtherIsZero()
    ensures ToBytes(Other) == Success(Zeros)
    ensures ToBytes(Other) == ToBytes(U64(0))
  {
    var z := PutUint64(0);
    assert forall i :: 0 <= i < 8 ==> z[i] == 0;
    assert z == Zeros;
  }

  /** The narrow integer kinds reach a grouped case and panic in its type
      assertion; no bytes are produced. */
  lemma ToBytesNarrowPanics(uk: UnsignedKind, sk: SignedKind)
    ensures ToBytes(NarrowUnsigned(uk)) == Failure(TypeAssertion(AssertUint64))
    ensures ToBytes(NarrowSigned(sk)) == Failure(TypeAssertion(AssertInt64))
  {
  }

  /** A string that parses is hashed exactly as the parsed `uint64` element
      would be. */
  lemma StringIntToByteParsed(parse: seq<Byte> -> Option<UInt64>, s: seq<Byte>)
    requires parse(s).Some?
    ensures Success(StringIntToByte(parse, s)) == ToBytes(U64(parse(s).value))
  {
    var n := parse(s).value;
    ToBytesUint64RoundTrip(Uint64(StringIntToByte(parse, s)), n);
  }

  /** Two strings that both parse give the same bytes exactly when they parse
      to the same number, however each is spelled. */
  lemma StringIntToByteSameNumber(parse: seq<Byte> -> Option<UInt64>, s: seq<Byte>, t: seq<Byte>)
    requires parse(s).Some? && parse(t).Some?
    ensures StringIntToByte(parse, s) == StringIntToByte(parse, t) <==> parse(s) == parse(t)
  {
    StringIntToByteParsed(parse, s);
    StringIntToByteParsed(parse, t);
    ToBytesUint64RoundTrip(parse(s).value, parse(t).value);
  }

  /** A string that fails to parse collides with a parsed number exactly when
      it is 8 bytes long and those bytes, read little-endian, are that
      number. */
  lemma StringIntToByteFallbackCollision(parse: seq<Byte> -> Option<UInt64>, s: seq<Byte>, t: seq<Byte>)
    requires parse(s).None? && parse(t).Some?
    ensures StringIntToByte(parse, s) == StringIntToByte(parse, t)
        <==> |s| == 8 && Uint64(s) == parse(t).value
  {
    var n := parse(t).value;
    StringIntToByteParsed(parse, t);
    if |s| == 8 && Uint64(s) == n {
      ToBytesUint64RoundTrip(n, n);
    }
  }
}
