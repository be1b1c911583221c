/** Bit vectors as integers, unsigned and in two's complement (asllib/bitvector.ml). */
module BitvectorInt {
  import opened Prelude
  import opened Bits
  import opened Bitvector
  import opened BitvectorSlices

  // ---------------------------------------------------------------- bits of integers

  /** Bit i of z in two's complement with infinitely many sign bits. */
  predicate ZBit(z: int, i: nat)
    decreases i
  {
    if i == 0 then z % 2 == 1 else ZBit(z / 2, i - 1)
  }

  /** Arithmetic shift, rounding towards minus infinity. */
  function ZShr(z: int, k: nat): int
    decreases k
  {
    if k == 0 then z else ZShr(z / 2, k - 1)
  }

  lemma {:induction false} ZBitNat(n: nat, i: nat)
    ensures ZBit(n, i) == Bit(n, i)
  {
    if i > 0 {
      ZBitNat(n / 2, i - 1);
    }
  }

  lemma {:induction false} ZShrBit(z: int, k: nat, i: nat)
    ensures ZBit(ZShr(z, k), i) == ZBit(z, i + k)
    decreases k
  {
    if k > 0 {
      ZShrBit(z / 2, k - 1, i);
    }
  }

  lemma HalfMod(z: int, p: nat)
    requires p > 0
    ensures (z % (2 * p)) % 2 == z % 2
    ensures (z % (2 * p)) / 2 == (z / 2) % p
  {
    var q, r := (z / 2) / p, (z / 2) % p;
    assert z == 2 * (z / 2) + z % 2 && z / 2 == p * q + r;
    assert z == (2 * p) * q + (2 * r + z % 2);
    ModUnique(z, 2 * p, q, 2 * r + z % 2);
  }

  lemma ModUnique(z: int, m: nat, q: int, r: nat)
    requires m > 0 && r < m && z == m * q + r
    ensures z % m == r
  {
    var q': int, r': int := z / m, z % m;
    assert m * (q - q') == r' - r;
    SmallFactor(m, q - q', r' - r);
  }

  lemma SmallFactor(m: nat, k: int, d: int)
    requires m > 0 && m * k == d && d < m && -d < m
    ensures d == 0
  {}

  lemma {:induction false} ModBit(z: int, n: nat, i: nat)
    ensures Pow2(n) > 0 && Bit(z % Pow2(n), i) == (i < n && ZBit(z, i))
    decreases n
  {
    Pow2Positive(n);
    if n == 0 {
      ZeroBit(i);
    } else {
      Pow2Positive(n - 1);
      HalfMod(z, Pow2(n - 1));
      if i > 0 {
        ModBit(z / 2, n - 1, i - 1);
      }
    }
  }

  /** Two integers with the same bits are equal. */
  lemma {:induction false} SameZBits(a: int, b: int)
    requires forall i: nat :: ZBit(a, i) == ZBit(b, i)
    ensures a == b
    decreases (if a < 0 then -a else a) + (if b < 0 then -b else b)
  {
    assert ZBit(a, 0) == ZBit(b, 0);
    if !(-1 <= a <= 0 && -1 <= b <= 0) {
      forall i: nat
        ensures ZBit(a / 2, i) == ZBit(b / 2, i)
      {
        assert ZBit(a, i + 1) == ZBit(b, i + 1);
      }
      SameZBits(a / 2, b / 2);
    }
  }

  /** Subtracting 2^n from an n-bit number sets all bits from n on. */
  lemma {:induction false} NegativeBits(u: nat, n: nat, i: nat)
    requires u < Pow2(n)
    ensures ZBit(u - Pow2(n), i) == (i >= n || ZBit(u, i))
  {
    if n == 0 {
      if i > 0 {
        NegativeBits(0, 0, i - 1);
      }
    } else {
      var p := Pow2(n - 1);
      assert (u - 2 * p) / 2 == u / 2 - p && (u - 2 * p) % 2 == u % 2;
      if i > 0 {
        NegativeBits(u / 2, n - 1, i - 1);
      }
    }
  }

  // ---------------------------------------------------------------- bytes as a number

  /** Little-endian value. */
  function Val(data: seq<Byte>): nat {
    if data == [] then 0 else data[0] + 256 * Val(data[1..])
  }

  lemma {:induction false} JoinBits(low: nat, high: nat, k: nat, i: nat)
    requires low < Pow2(k)
    ensures Bit(low + Pow2(k) * high, i) == if i < k then Bit(low, i) else Bit(high, i - k)
  {
    if k > 0 {
      var p := Pow2(k - 1);
      var n := low + Pow2(k) * high;
      assert Pow2(k) * high == 2 * (p * high);
      assert n / 2 == low / 2 + p * high && n % 2 == low % 2;
      if i > 0 {
        JoinBits(low / 2, high, k - 1, i - 1);
      }
    }
  }

  /** The bits of the value are the packed bits. */
  lemma {:induction false} ValBit(data: seq<Byte>, p: nat)
    ensures Bit(Val(data), p) == DataBit(data, p)
  {
    if data == [] {
      ZeroBit(p);
    } else {
      assert Pow2(8) == 256;
      JoinBits(data[0], Val(data[1..]), 8, p);
      if p >= 8 {
        ValBit(data[1..], p - 8);
        assert (p - 8) / 8 == p / 8 - 1 && (p - 8) % 8 == p % 8;
      }
    }
  }

  lemma ValidBound(x: Bv)
    requires Valid(x)
    ensures Val(x.data) < Pow2(x.length)
  {
    forall i: nat | i >= x.length
      ensures !Bit(Val(x.data), i)
    {
      ValBit(x.data, i);
    }
    NoHighBits(Val(x.data), x.length);
  }

  // ---------------------------------------------------------------- to_z_unsigned

  /** The local do_rec of to_z_unsigned. */
  function ToZRec(data: seq<Byte>, r: nat, i: int): nat
    requires i < |data|
    decreases i
  {
    if i < 0 then r else ToZRec(data, Bitwise(Or(), data[i], Shl(r, 8)), i - 1)
  }

  function ToZUnsigned(x: Bv): nat
    requires |x.data| == NumBytes(x.length)
  {
    if x.length == 0 then 0
    else
      var n, m := NumBytes(x.length), x.length % 8;
      ToZRec(x.data, Bitwise(And(), x.data[n - 1], Mask(if m == 0 then 8 else m)), n - 2)
  }

  lemma OrShift(c: Byte, r: nat)
    ensures Bitwise(Or(), c, Shl(r, 8)) == c + 256 * r
  {
    var n := Bitwise(Or(), c, Shl(r, 8));
    forall i: nat
      ensures Bit(n, i) == Bit(c + 256 * r, i)
    {
      BitwiseBit(Or(), c, Shl(r, 8), i);
      ShlBit(r, 8, i);
      ByteHighBits(c);
      assert Pow2(8) == 256;
      JoinBits(c, r, 8, i);
    }
    SameBits(n, c + 256 * r);
  }

  lemma {:induction false} ToZRecValue(data: seq<Byte>, i: int)
    requires -1 <= i < |data|
    ensures ToZRec(data, Val(data[i + 1..]), i) == Val(data)
    decreases i
  {
    if i < 0 {
      assert data[0..] == data;
    } else {
      OrShift(data[i], Val(data[i + 1..]));
      assert data[i..][1..] == data[i + 1..];
      ToZRecValue(data, i - 1);
    }
  }

  /** Masking the last byte of a valid vector changes nothing. */
  lemma LastByteMasked(x: Bv)
    requires Valid(x) && x.length > 0
    ensures var m := x.length % 8; var c := x.data[|x.data| - 1];
            Bitwise(And(), c, Mask(if m == 0 then 8 else m)) == c
  {
    hide Bit; hide Bitwise; hide Mask;
    var n, m := |x.data|, x.length % 8;
    var c, k := x.data[n - 1], if m == 0 then 8 else m;
    forall i: nat
      ensures Bit(Bitwise(And(), c, Mask(k)), i) == Bit(c, i)
    {
      BitwiseBit(And(), c, Mask(k), i);
      MaskBit(k, i);
      if i >= 8 {
        ByteHighBits(c);
      } else if i >= k {
        assert !DataBit(x.data, 8 * (n - 1) + i);
      }
    }
    SameBits(Bitwise(And(), c, Mask(k)), c);
  }

  lemma ToZUnsignedValue(x: Bv)
    requires Valid(x)
    ensures ToZUnsigned(x) == Val(x.data)
  {
    if x.length > 0 {
      var n := |x.data|;
      LastByteMasked(x);
      assert x.data[n - 1..] == [x.data[n - 1]];
      assert Val(x.data[n - 1..]) == x.data[n - 1];
      ToZRecValue(x.data, n - 2);
    }
  }

  // ---------------------------------------------------------------- of_z

  /** Z.extract */
  function Extract(z: int, off: nat, len: nat): nat {
    Pow2Positive(len);
    ZShr(z, off) % Pow2(len)
  }

  ghost predicate BitsOfZ(z: int, r: Bv) {
    Valid(r) && forall p: nat :: p < r.length ==> DataBit(r.data, p) == ZBit(z, p)
  }

  /** Byte q of of_z: eight bits of z, less those from sz on. */
  ghost predicate ZByte(sz: nat, z: int, q: nat, c: Byte) {
    forall j: nat :: j < 8 ==> Bit(c, j) == (8 * q + j < sz && ZBit(z, 8 * q + j))
  }

  method OfZ(sz: nat, z: int) returns (r: Bv)
    ensures r.length == sz && BitsOfZ(z, r)
  {
    hide ZByte; hide BitsOfZ; hide Mask; hide Bitwise; hide Extract;
    var n, m := NumBytes(sz), sz % 8;
    var result := new Byte[n](_ => 0);
    var msk := Mask(if m == 0 then 8 else m);
    var i := n - 1;
    while i >= 0
      invariant -1 <= i < n && msk == Mask(if i == n - 1 && m != 0 then m else 8)
      invariant forall q: nat :: i < q < n ==> ZByte(sz, z, q, result[q])
    {
      ExtractedByte(sz, z, i, if i == n - 1 && m != 0 then m else 8);
      result[i] := Bitwise(And(), Extract(z, i * 8, 8), msk);
      FullMask();
      msk := 0xFF;
      i := i - 1;
    }
    r := Bv(sz, result[..]);
    OfZSpec(sz, z, r.data);
  }

  lemma FullMask()
    ensures Mask(8) == 0xFF
  {}

  lemma OfZSpec(sz: nat, z: int, data: seq<Byte>)
    requires |data| == NumBytes(sz) && forall q: nat :: q < |data| ==> ZByte(sz, z, q, data[q])
    ensures BitsOfZ(z, Bv(sz, data))
  {
    hide Bit; hide ZBit;
    forall p: nat
      ensures DataBit(data, p) == (p < sz && ZBit(z, p))
    {
      if p / 8 < |data| {
        assert 8 * (p / 8) + p % 8 == p;
        assert ZByte(sz, z, p / 8, data[p / 8]);
      }
    }
  }

  lemma ExtractedByte(sz: nat, z: int, i: nat, k: nat)
    requires i < NumBytes(sz) && k == if i == NumBytes(sz) - 1 && sz % 8 != 0 then sz % 8 else 8
    ensures var c := Bitwise(And(), Extract(z, i * 8, 8), Mask(k)); c < 256 && ZByte(sz, z, i, c)
  {
    hide Bit; hide ZBit; hide Bitwise; hide Mask; hide ZShr; hide Pow2;
    var e := Extract(z, i * 8, 8);
    var c := Bitwise(And(), e, Mask(k));
    forall j: nat
      ensures Bit(c, j) == (j < k && ZBit(z, 8 * i + j))
    {
      BitwiseBit(And(), e, Mask(k), j);
      MaskBit(k, j);
      ModBit(ZShr(z, i * 8), 8, j);
      ZShrBit(z, i * 8, j);
      assert k <= 8;
    }
    IsByte(c);
  }

  /** to_z_unsigned (of_z n z) is z modulo 2^n. */
  lemma UnsignedOfZ(z: int, r: Bv)
    requires BitsOfZ(z, r)
    ensures Pow2(r.length) > 0 && ToZUnsigned(r) == z % Pow2(r.length)
  {
    Pow2Positive(r.length);
    ToZUnsignedValue(r);
    forall i: nat
      ensures Bit(Val(r.data), i) == Bit(z % Pow2(r.length), i)
    {
      ValBit(r.data, i);
      ModBit(z, r.length, i);
    }
    SameBits(Val(r.data), z % Pow2(r.length));
  }

  // ---------------------------------------------------------------- PLUS and MINUS of static evaluation

  method Plus(x: Bv, y: Bv) returns (r: Option<Bv>)
    requires Valid(x) && Valid(y)
    ensures r.Some? <==> x.length == y.length
    ensures r.Some? ==> Valid(r.value) && r.value.length == x.length && Pow2(x.length) > 0
    ensures r.Some? ==> ToZUnsigned(r.value) == (ToZUnsigned(x) + ToZUnsigned(y)) % Pow2(x.length)
  {
    if x.length != y.length {
      return None;
    }
    var sum := OfZ(x.length, ToZUnsigned(x) + ToZUnsigned(y));
    UnsignedOfZ(ToZUnsigned(x) + ToZUnsigned(y), sum);
    r := Some(sum);
  }

  method Minus(x: Bv, y: Bv) returns (r: Option<Bv>)
    requires Valid(x) && Valid(y)
    ensures r.Some? <==> x.length == y.length
    ensures r.Some? ==> Valid(r.value) && r.value.length == x.length && Pow2(x.length) > 0
    ensures r.Some? ==> ToZUnsigned(r.value) == (ToZUnsigned(x) - ToZUnsigned(y)) % Pow2(x.length)
  {
    if x.length != y.length {
      return None;
    }
    var diff := OfZ(x.length, ToZUnsigned(x) - ToZUnsigned(y));
    UnsignedOfZ(ToZUnsigned(x) - ToZUnsigned(y), diff);
    r := Some(diff);
  }

  /** Adding an integer, of any sign and size. */
  method PlusInt(x: Bv, z: int) returns (r: Bv)
    requires Valid(x)
    ensures Valid(r) && r.length == x.length && Pow2(x.length) > 0
    ensures ToZUnsigned(r) == (ToZUnsigned(x) + z) % Pow2(x.length)
  {
    r := OfZ(x.length, ToZUnsigned(x) + z);
    UnsignedOfZ(ToZUnsigned(x) + z, r);
  }

  method MinusInt(x: Bv, z: int) returns (r: Bv)
    requires Valid(x)
    ensures Valid(r) && r.length == x.length && Pow2(x.length) > 0
    ensures ToZUnsigned(r) == (ToZUnsigned(x) - z) % Pow2(x.length)
  {
    r := OfZ(x.length, ToZUnsigned(x) - z);
    UnsignedOfZ(ToZUnsigned(x) - z, r);
  }

  // ---------------------------------------------------------------- signed values

  /** sign_bit, for a vector that has one. */
  function SignBit(x: Bv): bool
    requires |x.data| == NumBytes(x.length) && x.length > 0
  {
    var n, m := x.length / 8, x.length % 8;
    var pos := if m == 0 then n - 1 else n;
    Bit(x.data[pos], (m + 7) % 8)
  }

  lemma SignBitSpec(x: Bv)
    requires |x.data| == NumBytes(x.length) && x.length > 0
    ensures SignBit(x) == DataBit(x.data, x.length - 1)
  {}

  function ToZSigned(x: Bv): int
    requires |x.data| == NumBytes(x.length) && x.length > 0
  {
    var r: int := ToZUnsigned(x);
    if !SignBit(x) then r else r - Shl(1, x.length)
  }

  lemma {:induction false} ShlOne(k: nat)
    ensures Shl(1, k) == Pow2(k)
  {
    if k > 0 {
      ShlOne(k - 1);
    }
  }

  /** The signed value has the bits of the vector, continued with its sign bit. */
  lemma SignedBits(x: Bv, i: nat)
    requires Valid(x) && x.length > 0
    ensures ZBit(ToZSigned(x), i) == DataBit(x.data, if i < x.length then i else x.length - 1)
  {
    SignBitSpec(x);
    ToZUnsignedValue(x);
    ValBit(x.data, i);
    ZBitNat(Val(x.data), i);
    ShlOne(x.length);
    ValidBound(x);
    NegativeBits(Val(x.data), x.length, i);
  }

  /** to_z_signed is the two's complement value. */
  lemma SignedSpec(x: Bv)
    requires Valid(x) && x.length > 0
    ensures Pow2(x.length) > 0 && ToZSigned(x) % Pow2(x.length) == ToZUnsigned(x)
    ensures var half: int := Pow2(x.length - 1); -half <= ToZSigned(x) < half
  {
    var u: int, p: int := Val(x.data), Pow2(x.length - 1);
    Pow2Positive(x.length - 1);
    ToZUnsignedValue(x);
    ValidBound(x);
    ShlOne(x.length);
    SignBitSpec(x);
    ValBit(x.data, x.length - 1);
    ModUnique(u, 2 * p, 0, u);
    ModUnique(u - 2 * p, 2 * p, -1, u);
    if SignBit(x) {
      BelowPow2(u, x.length - 1);
    } else {
      forall i: nat | i >= x.length - 1
        ensures !Bit(u, i)
      {
        ValBit(x.data, i);
      }
      NoHighBits(u, x.length - 1);
    }
  }

  // ---------------------------------------------------------------- extension

  /** The table that sets the bits from the sign bit on, by length mod 8. */
  function SignMask(m: nat): Byte
    requires m < 8
  {
    [0, 0xff, 0xfe, 0xfc, 0xf8, 0xf0, 0xe0, 0xc0][m]
  }

  lemma SignMaskBit(m: nat, i: nat)
    requires m < 8
    ensures Bit(SignMask(m), i) == (m > 0 && m - 1 <= i < 8)
  {
    assert Shl(Mask(8), 0) == 0xff && Shl(Mask(7), 1) == 0xfe && Shl(Mask(6), 2) == 0xfc && Shl(Mask(5), 3) == 0xf8;
    assert Shl(Mask(4), 4) == 0xf0 && Shl(Mask(3), 5) == 0xe0 && Shl(Mask(2), 6) == 0xc0;
    if m == 0 {
      ZeroBit(i);
    } else {
      assert SignMask(m) == Shl(Mask(9 - m), m - 1);
      ShlBit(Mask(9 - m), m - 1, i);
      if i >= m - 1 {
        MaskBit(9 - m, i - (m - 1));
      }
    }
  }

  ghost predicate IsExtension(signed: bool, nbytes: nat, x: Bv, r: Bv) {
    && Valid(r) && r.length == 8 * nbytes
    && forall p: nat :: p < r.length ==>
         DataBit(r.data, p) == if p < x.length then DataBit(x.data, p) else signed && x.length > 0 && DataBit(x.data, x.length - 1)
  }

  /** extend; None is the Invalid_argument of the sign of an empty vector. */
  method Extend(signed: bool, nbytes: nat, x: Bv) returns (r: Option<Bv>)
    requires Valid(x)
    ensures r.None? <==> signed && x.length == 0 && nbytes > 0
    ensures r.Some? ==> IsExtension(signed, nbytes, x, r.value)
  {
    var toLength := 8 * nbytes;
    if x.length > toLength {
      r := Some(Bv(toLength, x.data[..nbytes]));
    } else if x.length == toLength {
      r := Some(x);
    } else if signed && x.length == 0 {
      r := None;
    } else {
      var neg := signed && SignBit(x);
      var n, m := x.length / 8, x.length % 8;
      var k := |x.data|;
      var result := new Byte[nbytes](i requires 0 <= i < nbytes =>
        if i < k then x.data[i] else if neg then 0xff else 0);
      if neg {
        var pos := if m == 0 then n - 1 else n;
        BitwiseByte(Or(), SignMask(m), x.data[pos]);
        result[pos] := Bitwise(Or(), SignMask(m), x.data[pos]);
      }
      r := Some(Bv(toLength, result[..]));
      ExtendSpec(signed, nbytes, x, neg, r.value);
    }
  }

  lemma ExtendSpec(signed: bool, nbytes: nat, x: Bv, neg: bool, r: Bv)
    requires Valid(x) && x.length < 8 * nbytes && (signed ==> x.length > 0)
    requires neg == (signed && SignBit(x)) && r.length == 8 * nbytes && |r.data| == nbytes
    requires var m := x.length % 8;
             var pos := if m == 0 then x.length / 8 - 1 else x.length / 8;
             forall i :: 0 <= i < nbytes ==>
               r.data[i] == if neg && i == pos then Bitwise(Or(), SignMask(m), x.data[i])
                            else if i < |x.data| then x.data[i] else if neg then 0xff else 0
    ensures IsExtension(signed, nbytes, x, r)
  {
    hide Bit; hide Bitwise; hide SignMask; hide SignBit;
    forall p: nat | p < 8 * nbytes
      ensures DataBit(r.data, p) == if p < x.length then DataBit(x.data, p) else neg
    {
      if p / 8 < |x.data| {
        ExtendedByte(neg, x, r.data[p / 8], p);
      } else {
        AllOnes(p % 8);
        ZeroBit(p % 8);
      }
    }
    if signed {
      SignBitSpec(x);
    }
  }

  lemma ExtendedByte(neg: bool, x: Bv, c: Byte, p: nat)
    requires Valid(x) && p / 8 < |x.data| && (neg ==> x.length > 0 && SignBit(x))
    requires var m := x.length % 8;
             var pos := if m == 0 then x.length / 8 - 1 else x.length / 8;
             c == if neg && p / 8 == pos then Bitwise(Or(), SignMask(m), x.data[p / 8]) else x.data[p / 8]
    ensures Bit(c, p % 8) == if p < x.length then DataBit(x.data, p) else neg
  {
    hide Bit; hide Bitwise; hide SignMask; hide SignBit;
    var n, m, i := x.length / 8, x.length % 8, p % 8;
    assert x.length == 8 * n + m && p == 8 * (p / 8) + i;
    assert |x.data| == if m == 0 then n else n + 1;
    assert p < x.length <==> p / 8 < n || i < m;
    assert DataBit(x.data, p) == Bit(x.data[p / 8], i);
    if neg {
      SignBitSpec(x);
      BitwiseBit(Or(), SignMask(m), x.data[p / 8], i);
      SignMaskBit(m, i);
      if p / 8 == n && i == m - 1 {
        assert p == x.length - 1;
      }
    }
  }

  lemma AllOnes(i: nat)
    requires i < 8
    ensures Bit(0xff, i)
  {
    assert Mask(8) == 0xff;
    MaskBit(8, i);
  }

  /** Sign extension to at least as many bits keeps the signed value. */
  lemma SignExtendKeepsValue(nbytes: nat, x: Bv, r: Bv)
    requires Valid(x) && 0 < x.length <= 8 * nbytes && IsExtension(true, nbytes, x, r)
    ensures ToZSigned(r) == ToZSigned(x)
  {
    forall i: nat
      ensures ZBit(ToZSigned(r), i) == ZBit(ToZSigned(x), i)
    {
      SignedBits(r, i);
      SignedBits(x, i);
    }
    SameZBits(ToZSigned(r), ToZSigned(x));
  }
}
