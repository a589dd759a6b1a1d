/** Little-endian byte encoding of natural numbers, the convention of Go's
    `binary.LittleEndian`: the least significant byte comes first. */
module LittleEndian {

  /** A byte, as an integer in 0..255. */
  type Byte = b: int | 0 <= b < 256

  /** 256 raised to the power `k`: the number of values `k` bytes can hold. */
  function Pow256(k: nat): (p: nat)
    ensures p > 0
  {
    if k == 0 then 1 else 256 * Pow256(k - 1)
  }

  /** The `width` low-order bytes of `n`, least significant first. */
  function Encode(n: nat, width: nat): (bs: seq<Byte>)
    ensures |bs| == width
  {
    if width == 0 then [] else [n % 256] + Encode(n / 256, width - 1)
  }

  /** The number whose little-endian representation is `bs`. */
  function Decode(bs: seq<Byte>): (n: nat)
    ensures n < Pow256(|bs|)
  {
    if |bs| == 0 then 0 else bs[0] + 256 * Decode(bs[1..])
  }

  /** Multiplying by a natural number keeps the order. */
  lemma MulMono(x: nat, y: nat, c: nat)
    requires x <= y
    ensures x * c <= y * c
  {
    assert y * c == x * c + (y - x) * c;
  }

  /** Division is determined by any quotient/remainder decomposition. */
  lemma DivUnique(n: nat, d: nat, q: nat, r: nat)
    requires d > 0 && r < d && n == q * d + r
    ensures n / d == q
  {
    var q' := n / d;
    var r' := n % d;
    assert n == q' * d + r';
    if q' < q {
      MulMono(q' + 1, q, d);
      assert false;
    } else if q' > q {
      MulMono(q + 1, q', d);
      assert false;
    }
  }

  /** Regrouping a mixed-radix decomposition. */
  lemma Regroup(q: nat, a: nat, b: nat, s: nat, t: nat)
    ensures q * (a * b) + (s * a + t) == (q * b + s) * a + t
  {
  }

  /** Dividing twice is dividing by the product. */
  lemma DivDiv(n: nat, a: nat, b: nat)
    requires a > 0 && b > 0
    ensures n / a / b == n / (a * b)
  {
    var q := n / (a * b);
    var r := n % (a * b);
    var s := r / a;
    var t := r % a;
    if s >= b {
      MulMono(b, s, a);
      assert false;
    }
    Regroup(q, a, b, s, t);
    DivUnique(n, a, q * b + s, t);
    DivUnique(n / a, b, q, s);
  }

  /** Byte `i` of the encoding is `n` shifted right by `8 * i` bits, masked to
      eight bits: exactly what Go's `PutUint64` stores at index `i`. */
  lemma {:induction false} EncodeByteAt(n: nat, width: nat, i: nat)
    requires i < width
    ensures Encode(n, width)[i] == (n / Pow256(i)) % 256
  {
    if i > 0 {
      EncodeByteAt(n / 256, width - 1, i - 1);
      DivDiv(n, 256, Pow256(i - 1));
    }
  }

  /** Every byte of the encoding, in closed form. */
  lemma EncodeBytes(n: nat, width: nat)
    ensures forall i :: 0 <= i < width ==> Encode(n, width)[i] == (n / Pow256(i)) % 256
  {
    forall i | 0 <= i < width
      ensures Encode(n, width)[i] == (n / Pow256(i)) % 256
    {
      EncodeByteAt(n, width, i);
    }
  }

  /** Decoding an encoding gives the number back, when it fits in `width`
      bytes. */
  lemma {:induction false} DecodeEncode(n: nat, width: nat)
    requires n < Pow256(width)
    ensures Decode(Encode(n, width)) == n
  {
    if width > 0 {
      var bs := Encode(n, width);
      assert bs[1..] == Encode(n / 256, width - 1);
      DecodeEncode(n / 256, width - 1);
    }
  }

  /** Encoding a decoded byte sequence gives the same bytes back: every byte
      sequence is the encoding of exactly one number. */
  lemma {:induction false} EncodeDecode(bs: seq<Byte>)
    ensures Encode(Decode(bs), |bs|) == bs
  {
    if |bs| > 0 {
      var n := Decode(bs);
      assert n % 256 == bs[0];
      assert n / 256 == Decode(bs[1..]);
      EncodeDecode(bs[1..]);
    }
  }

  /** Two numbers that fit in `width` bytes share an encoding exactly when
      they are equal. */
  lemma EncodeInjective(a: nat, b: nat, width: nat)
    requires a < Pow256(width) && b < Pow256(width)
    ensures Encode(a, width) == Encode(b, width) <==> a == b
  {
    if Encode(a, width) == Encode(b, width) {
      DecodeEncode(a, width);
      DecodeEncode(b, width);
    }
  }
}
