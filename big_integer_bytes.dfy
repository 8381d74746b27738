/** How System.Numerics.BigInteger turns a byte array into a number and back: little-endian
    two's complement, the sign taken from the top bit of the last byte. */
module BigIntegerBytes {
  import opened Arithmetic

  type Byte = b: int | 0 <= b < 256

  lemma PowTwoSeven()
    ensures Pow(2, 7) == 128
  {
    assert Pow(2, 1) == 2;
    assert Pow(2, 3) == 8;
    assert Pow(2, 5) == 32;
  }

  /** One more byte multiplies the range by 256; its sign bit sits at 128 times the old range. */
  lemma Radix(n: nat)
    requires n >= 1
    ensures Pow(2, 8 * n) == 256 * Pow(2, 8 * (n - 1))
    ensures Pow(2, 8 * n - 1) == 128 * Pow(2, 8 * (n - 1))
  {
    var e := 8 * (n - 1);
    PowTwoSeven();
    PowAdd(2, 7, e);
    assert 7 + e == 8 * n - 1;
    PowAdd(2, 8, e);
    assert 8 + e == 8 * n;
  }

  /** The bytes read as an unsigned little-endian number. */
  function Unsigned(bytes: seq<Byte>): (r: nat)
    ensures r < Pow(2, 8 * |bytes|)
  {
    if |bytes| == 0 then 0
    else
      Radix(|bytes|);
      bytes[0] + 256 * Unsigned(bytes[1..])
  }

  /** The value of new BigInteger(bytes): little-endian two's complement, and 0 for no bytes. */
  function FromBytes(bytes: seq<Byte>): (r: int)
    ensures r == Unsigned(bytes) || r == Unsigned(bytes) - Pow(2, 8 * |bytes|)
    ensures r < 0 ==> |bytes| >= 1 && bytes[|bytes| - 1] >= 128
  {
    if |bytes| == 0 then 0
    else if bytes[|bytes| - 1] >= 128 then Unsigned(bytes) - Pow(2, 8 * |bytes|)
    else Unsigned(bytes)
  }

  /** The last byte carries the weight 2^(8(n-1)). */
  lemma {:induction false} UnsignedSplit(bytes: seq<Byte>)
    requires |bytes| >= 1
    ensures Unsigned(bytes) == Unsigned(bytes[..|bytes| - 1]) + Pow(2, 8 * (|bytes| - 1)) * bytes[|bytes| - 1]
  {
    var n := |bytes|;
    if n > 1 {
      var tail, init := bytes[1..], bytes[..n - 1];
      UnsignedSplit(tail);
      assert tail[..n - 2] == init[1..];
      var low, t := Unsigned(init[1..]), bytes[n - 1];
      var w := Pow(2, 8 * (n - 2));
      assert Unsigned(tail) == low + w * t;
      assert Unsigned(init) == bytes[0] + 256 * low;
      assert Unsigned(bytes) == bytes[0] + 256 * Unsigned(tail);
      Radix(n - 1);
      assert Pow(2, 8 * (n - 1)) == 256 * w;
      Distribute(low, w, t);
    }
  }

  lemma Distribute(low: int, w: int, t: int)
    ensures 256 * (low + w * t) == 256 * low + (256 * w) * t
  {
  }

  /** The unsigned value reaches 2^(8n-1) exactly when the top bit of the last byte is set. */
  lemma TopBit(bytes: seq<Byte>)
    requires |bytes| >= 1
    ensures var n := |bytes|;
      Pow(2, 8 * n - 1) == 128 * Pow(2, 8 * (n - 1)) && Pow(2, 8 * n) == 256 * Pow(2, 8 * (n - 1)) &&
      (bytes[n - 1] >= 128 <==> Unsigned(bytes) >= Pow(2, 8 * n - 1))
  {
    var n := |bytes|;
    UnsignedSplit(bytes);
    Radix(n);
    var low, w, t := Unsigned(bytes[..n - 1]), Pow(2, 8 * (n - 1)), bytes[n - 1];
    assert low < w;
    if t >= 128 {
      MulAtLeastBy(w, t, 128);
    } else {
      MulAtLeastBy(w, 127, t);
    }
  }

  lemma MulAtLeastBy(w: int, x: int, y: int)
    requires w >= 0 && x >= y
    ensures w * x >= w * y
  {
  }

  /** A candidate drawn from n bytes lies in [-2^(8n-1), 2^(8n-1)), and it is negative exactly
      when the top bit of the last byte is set. */
  lemma DecodeRange(bytes: seq<Byte>)
    requires |bytes| >= 1
    ensures var n := |bytes|;
      -Pow(2, 8 * n - 1) <= FromBytes(bytes) < Pow(2, 8 * n - 1) &&
      (FromBytes(bytes) < 0 <==> bytes[n - 1] >= 128)
  {
    TopBit(bytes);
  }

  /** The n little-endian bytes of u. */
  function ToUnsigned(u: nat, n: nat): (bytes: seq<Byte>)
    ensures |bytes| == n
  {
    if n == 0 then [] else [u % 256] + ToUnsigned(u / 256, n - 1)
  }

  lemma {:induction false} UnsignedOfToUnsigned(u: nat, n: nat)
    requires u < Pow(2, 8 * n)
    ensures Unsigned(ToUnsigned(u, n)) == u
  {
    if n > 0 {
      Radix(n);
      var b := ToUnsigned(u, n);
      assert b[1..] == ToUnsigned(u / 256, n - 1);
      UnsignedOfToUnsigned(u / 256, n - 1);
    }
  }

  lemma {:induction false} ToUnsignedOfUnsigned(bytes: seq<Byte>)
    ensures ToUnsigned(Unsigned(bytes), |bytes|) == bytes
  {
    if |bytes| > 0 {
      var u := Unsigned(bytes);
      DivModUnique(u, 256, Unsigned(bytes[1..]), bytes[0]);
      ToUnsignedOfUnsigned(bytes[1..]);
    }
  }

  /** The n-byte two's complement form of v: what BigInteger.ToByteArray() produces, sign-extended
      to n bytes. */
  function ToBytes(v: int, n: nat): (bytes: seq<Byte>)
    requires n >= 1 && -Pow(2, 8 * n - 1) <= v < Pow(2, 8 * n - 1)
    ensures |bytes| == n
  {
    Radix(n);
    ToUnsigned(if v >= 0 then v else v + Pow(2, 8 * n), n)
  }

  /** Decoding undoes encoding. */
  lemma DecodeEncode(v: int, n: nat)
    requires n >= 1 && -Pow(2, 8 * n - 1) <= v < Pow(2, 8 * n - 1)
    ensures FromBytes(ToBytes(v, n)) == v
  {
    Radix(n);
    var u := if v >= 0 then v else v + Pow(2, 8 * n);
    UnsignedOfToUnsigned(u, n);
    TopBit(ToBytes(v, n));
  }

  /** Encoding undoes decoding. */
  lemma EncodeDecode(bytes: seq<Byte>)
    requires |bytes| >= 1
    ensures var n := |bytes|;
      -Pow(2, 8 * n - 1) <= FromBytes(bytes) < Pow(2, 8 * n - 1) &&
      ToBytes(FromBytes(bytes), n) == bytes
  {
    DecodeRange(bytes);
    TopBit(bytes);
    ToUnsignedOfUnsigned(bytes);
  }

  /** The length of BigInteger.ToByteArray() for v >= 0: the fewest bytes whose two's complement
      form holds v with a clear sign bit. */
  function ByteLength(v: nat): (n: nat)
    ensures n >= 1 && v < Pow(2, 8 * n - 1)
    ensures n > 1 ==> Pow(2, 8 * (n - 1) - 1) <= v
  {
    if v < 128 then
      PowTwoSeven();
      1
    else
      var m := ByteLength(v / 256);
      Radix(m);
      Radix(m + 1);
      assert v < 256 * (v / 256 + 1);
      1 + m
  }
}
