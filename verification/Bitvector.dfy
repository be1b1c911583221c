/** Bit vectors packed in bytes: representation, concatenation and slices (asllib/bitvector.ml). */
module Bitvector {
  import opened Bits

  /** A length in bits and the data, least significant byte first. */
  datatype Bv = Bv(length: nat, data: seq<Byte>)

  function NumBytes(length: nat): nat {
    (length + 7) / 8
  }

  /** As many bytes as are needed, and no more. */
  lemma NumBytesSpec(length: nat)
    ensures 8 * (NumBytes(length) - 1) < length <= 8 * NumBytes(length)
  {}

  /** Bit p of packed bytes; there is nothing beyond the last byte. */
  predicate DataBit(data: seq<Byte>, p: nat) {
    p / 8 < |data| && Bit(data[p / 8], p % 8)
  }

  /** The bytes are as many as needed, and the padding bits are zero. */
  ghost predicate Valid(bv: Bv) {
    |bv.data| == NumBytes(bv.length) && forall p: nat :: p >= bv.length ==> !DataBit(bv.data, p)
  }

  /** The bits, least significant first. */
  ghost function BitsOf(bv: Bv): (s: seq<bool>)
    ensures |s| == bv.length && (forall p: nat :: p < bv.length ==> s[p] == DataBit(bv.data, p))
  {
    seq(bv.length, (p: nat) => DataBit(bv.data, p))
  }

  /** equal: same length and same bytes. */
  predicate Equal(x: Bv, y: Bv) {
    x.length == y.length && x.data == y.data
  }

  lemma SameData(d1: seq<Byte>, d2: seq<Byte>)
    requires |d1| == |d2| && forall p: nat :: p < 8 * |d1| ==> DataBit(d1, p) == DataBit(d2, p)
    ensures d1 == d2
  {
    forall q | 0 <= q < |d1|
      ensures d1[q] == d2[q]
    {
      forall i: nat | i < 8
        ensures Bit(d1[q], i) == Bit(d2[q], i)
      {
        var p: nat := 8 * q + i;
        assert p / 8 == q && p % 8 == i;
        assert DataBit(d1, p) == DataBit(d2, p);
      }
      SameByte(d1[q], d2[q]);
    }
  }

  /** Because the padding is zero, comparing bytes decides equality of the bits. */
  lemma EqualSpec(x: Bv, y: Bv)
    requires Valid(x) && Valid(y)
    ensures Equal(x, y) <==> BitsOf(x) == BitsOf(y)
  {
    if BitsOf(x) == BitsOf(y) {
      assert x.length == |BitsOf(x)| == |BitsOf(y)| == y.length;
      forall p: nat | p < 8 * |x.data|
        ensures DataBit(x.data, p) == DataBit(y.data, p)
      {
        if p < x.length {
          assert BitsOf(x)[p] == BitsOf(y)[p];
        }
      }
      SameData(x.data, y.data);
    }
  }

  // ---------------------------------------------------------------- mixing bytes

  /** The low `off` bits of lo, then the low bits of hi. */
  function MixStart(off: nat, lo: Byte, hi: Byte): Byte {
    LowByte(Bitwise(Or(), Bitwise(And(), Mask(off), lo), Shl(hi, off)))
  }

  /** The high `off` bits of lo, then the low bits of hi. */
  function MixBody(off: nat, lo: Byte, hi: Byte): Byte
    requires off <= 8
  {
    LowByte(Bitwise(Or(), Shr(lo, 8 - off), Shl(hi, off)))
  }

  lemma ShiftedByte(b: Byte, off: nat, size: nat)
    ensures Bitwise(And(), Shr(b, off), Mask(size)) < 256
  {
    var n := Bitwise(And(), Shr(b, off), Mask(size));
    forall i: nat | i >= 8
      ensures !Bit(n, i)
    {
      BitwiseBit(And(), Shr(b, off), Mask(size), i);
      ShrBit(b, off, i);
      ByteHighBits(b);
    }
    IsByte(n);
  }

  /** `size` bits of b from position off. */
  function MixFinal(off: nat, size: nat, b: Byte): Byte {
    ShiftedByte(b, off, size);
    Bitwise(And(), Shr(b, off), Mask(size))
  }

  lemma MixStartBit(off: nat, lo: Byte, hi: Byte, i: nat)
    requires i < 8
    ensures Bit(MixStart(off, lo, hi), i) == if i < off then Bit(lo, i) else Bit(hi, i - off)
  {
    var l, h := Bitwise(And(), Mask(off), lo), Shl(hi, off);
    BitwiseBit(Or(), l, h, i);
    BitwiseBit(And(), Mask(off), lo, i);
    MaskBit(off, i);
    ShlBit(hi, off, i);
  }

  lemma MixBodyBit(off: nat, lo: Byte, hi: Byte, i: nat)
    requires off <= 8 && i < 8
    ensures Bit(MixBody(off, lo, hi), i) == if i < off then Bit(lo, i + 8 - off) else Bit(hi, i - off)
  {
    BitwiseBit(Or(), Shr(lo, 8 - off), Shl(hi, off), i);
    ShrBit(lo, 8 - off, i);
    ShlBit(hi, off, i);
    ByteHighBits(lo);
  }

  lemma MixFinalBit(off: nat, size: nat, b: Byte, i: nat)
    ensures Bit(MixFinal(off, size, b), i) == (i < size && Bit(b, i + off))
  {
    BitwiseBit(And(), Shr(b, off), Mask(size), i);
    ShrBit(b, off, i);
    MaskBit(size, i);
  }

  // ---------------------------------------------------------------- copy_into

  /** Byte q of the destination holds the bits of src that belong there when src starts at bit `offset`. */
  ghost predicate ByteCopied(dst: seq<Byte>, src: seq<Byte>, offset: nat, q: nat)
    requires q < |dst|
  {
    forall i: nat :: i < 8 && 8 * q + i >= offset ==> Bit(dst[q], i) == DataBit(src, 8 * q + i - offset)
  }

  lemma BodyCopied(dst: seq<Byte>, src: seq<Byte>, offset: nat, k: nat)
    requires offset % 8 > 0 && 0 < k < |src| && offset / 8 + k < |dst|
    requires dst[offset / 8 + k] == MixBody(offset % 8, src[k - 1], src[k])
    ensures ByteCopied(dst, src, offset, offset / 8 + k)
  {
    hide MixBody; hide Bit;
    var n, m, q := offset / 8, offset % 8, offset / 8 + k;
    forall i: nat | i < 8 && 8 * q + i >= offset
      ensures Bit(dst[q], i) == DataBit(src, 8 * q + i - offset)
    {
      MixBodyBit(m, src[k - 1], src[k], i);
      BodyPosition(offset, k, i);
    }
  }

  /** Where bit i of byte offset / 8 + k comes from. */
  lemma BodyPosition(offset: nat, k: nat, i: nat)
    requires offset % 8 > 0 && k > 0 && i < 8
    ensures var p := 8 * (offset / 8 + k) + i - offset;
            p >= 0 && if i < offset % 8 then p / 8 == k - 1 && p % 8 == i + 8 - offset % 8
                      else p / 8 == k && p % 8 == i - offset % 8
  {
    var p := 8 * (offset / 8 + k) + i - offset;
    assert p == 8 * k + i - offset % 8;
  }

  lemma StartCopied(dst: seq<Byte>, src: seq<Byte>, offset: nat, lo: Byte)
    requires offset % 8 > 0 && |src| > 0 && offset / 8 < |dst|
    requires dst[offset / 8] == MixStart(offset % 8, lo, src[0])
    ensures ByteCopied(dst, src, offset, offset / 8)
    ensures forall i: nat :: i < offset % 8 ==> Bit(dst[offset / 8], i) == Bit(lo, i)
  {
    hide Bit; hide MixStart;
    var n, m := offset / 8, offset % 8;
    forall i: nat | i < 8
      ensures if i < m then Bit(dst[n], i) == Bit(lo, i) else Bit(dst[n], i) == DataBit(src, 8 * n + i - offset)
    {
      MixStartBit(m, lo, src[0], i);
      if i >= m {
        assert 8 * n + i - offset == i - m;
      }
    }
  }

  lemma FinalCopied(dst: seq<Byte>, src: Bv, offset: nat)
    requires Valid(src) && src.length > 0 && offset % 8 > 0
    requires var n, k := offset / 8, |src.data|;
             var rem := src.length - (8 - offset % 8) - 8 * (k - 1);
             n + k < |dst| && rem > 0 && dst[n + k] == MixFinal(8 - offset % 8, rem, src.data[k - 1])
    ensures ByteCopied(dst, src.data, offset, offset / 8 + |src.data|)
  {
    var n, m, k := offset / 8, offset % 8, |src.data|;
    var rem := src.length - (8 - m) - 8 * (k - 1);
    var q := n + k;
    forall i: nat | i < 8 && 8 * q + i >= offset
      ensures Bit(dst[q], i) == DataBit(src.data, 8 * q + i - offset)
    {
      MixFinalBit(8 - m, rem, src.data[k - 1], i);
      BodyPosition(offset, k, i);
      var p := 8 * q + i - offset;
      assert i >= rem && i < m ==> p >= src.length;
    }
  }

  lemma AlignedCopied(dst: seq<Byte>, src: seq<Byte>, offset: nat, k: nat)
    requires offset % 8 == 0 && k < |src| && offset / 8 + k < |dst| && dst[offset / 8 + k] == src[k]
    ensures ByteCopied(dst, src, offset, offset / 8 + k)
  {
    var q := offset / 8 + k;
    forall i: nat | i < 8 && 8 * q + i >= offset
      ensures Bit(dst[q], i) == DataBit(src, 8 * q + i - offset)
    {
      var p := 8 * q + i - offset;
      assert p == 8 * k + i && p / 8 == k && p % 8 == i;
    }
  }

  ghost predicate Copied(before: seq<Byte>, dst: seq<Byte>, src: Bv, offset: nat) {
    var n, e := offset / 8, NumBytes(offset + src.length);
    && |dst| == |before| >= e
    && (forall q :: 0 <= q < |dst| && (q < n || q >= e) ==> dst[q] == before[q])
    && (forall q :: n <= q < e ==> ByteCopied(dst, src.data, offset, q))
    && (forall i: nat :: i < offset % 8 && n < e ==> Bit(dst[n], i) == Bit(before[n], i))
  }

  /** Copies b into dst from bit `offset` on; returns the first bit after it. */
  method CopyInto(dst: array<Byte>, b: Bv, offset: nat) returns (lengthDst: nat)
    requires Valid(b) && dst.Length >= NumBytes(offset + b.length)
    modifies dst
    ensures lengthDst == offset + b.length
    ensures if b.length == 0 then dst[..] == old(dst[..]) else Copied(old(dst[..]), dst[..], b, offset)
  {
    lengthDst := offset + b.length;
    if b.length > 0 {
      var n, m := offset / 8, offset % 8;
      if m == 0 {
        forall k | 0 <= k < |b.data| {
          dst[n + k] := b.data[k];
        }
        AlignedSpec(old(dst[..]), dst[..], b, offset);
      } else {
        Unaligned(dst, b, offset);
      }
    }
  }

  lemma AlignedSpec(before: seq<Byte>, dst: seq<Byte>, b: Bv, offset: nat)
    requires Valid(b) && b.length > 0 && offset % 8 == 0
    requires |dst| == |before| >= NumBytes(offset + b.length)
    requires forall q :: 0 <= q < |dst| ==>
               dst[q] == if offset / 8 <= q < offset / 8 + |b.data| then b.data[q - offset / 8] else before[q]
    ensures Copied(before, dst, b, offset)
  {
    hide ByteCopied;
    var n, e := offset / 8, NumBytes(offset + b.length);
    assert e == n + |b.data|;
    forall q | n <= q < e
      ensures ByteCopied(dst, b.data, offset, q)
    {
      AlignedCopied(dst, b.data, offset, q - n);
    }
  }

  /** The branch of copy_into for an offset inside a byte. */
  method Unaligned(dst: array<Byte>, b: Bv, offset: nat)
    requires Valid(b) && b.length > 0 && offset % 8 > 0 && dst.Length >= NumBytes(offset + b.length)
    modifies dst
    ensures Copied(old(dst[..]), dst[..], b, offset)
  {
    hide ByteCopied; hide Bit; hide MixStart; hide MixBody; hide MixFinal;
    var n, m := offset / 8, offset % 8;
    var lo := dst[n];
    dst[n] := MixStart(m, lo, b.data[0]);
    StartCopied(dst[..], b.data, offset, lo);
    var remBits := b.length - (8 - m);
    var srcLen := NumBytes(b.length);
    var i, j := 0, n + 1;
    ghost var first := dst[n];
    while i + 1 < srcLen
      invariant 0 <= i < srcLen && j == n + 1 + i && remBits == b.length - (8 - m) - 8 * i
      invariant dst[n] == first
      invariant forall q :: 0 <= q < dst.Length && (q < n || q >= j) ==> dst[q] == old(dst[q])
      invariant forall q :: n <= q < j ==> ByteCopied(dst[..], b.data, offset, q)
    {
      ghost var before := dst[..];
      dst[j] := MixBody(m, b.data[i], b.data[i + 1]);
      BodyCopied(dst[..], b.data, offset, i + 1);
      CopiedStays(before, dst[..], b.data, offset, n, j);
      i := i + 1;
      j := j + 1;
      remBits := remBits - 8;
    }
    if remBits > 0 {
      ghost var before := dst[..];
      dst[j] := MixFinal(8 - m, remBits, b.data[i]);
      FinalCopied(dst[..], b, offset);
      CopiedStays(before, dst[..], b.data, offset, n, j);
    }
  }

  lemma CopiedStays(before: seq<Byte>, dst: seq<Byte>, src: seq<Byte>, offset: nat, n: nat, j: nat)
    requires |dst| == |before| && n <= j < |dst| && dst[..j] == before[..j]
    requires forall q :: n <= q < j ==> ByteCopied(before, src, offset, q)
    ensures forall q :: n <= q < j ==> ByteCopied(dst, src, offset, q)
  {
    forall q | n <= q < j
      ensures ByteCopied(dst, src, offset, q)
    {
      assert ByteCopied(before, src, offset, q);
      assert dst[q] == dst[..j][q] == before[q];
    }
  }

  // ---------------------------------------------------------------- concat

  /** dst starts with the given bits, and the rest of the last byte they reach is zero. */
  ghost predicate Begins(dst: seq<Byte>, bits: seq<bool>) {
    && NumBytes(|bits|) <= |dst|
    && forall p: nat :: p < 8 * NumBytes(|bits|) ==> DataBit(dst, p) == (p < |bits| && bits[p])
  }

  /** Copying after some bits appends to them. */
  lemma CopiedBegins(before: seq<Byte>, dst: seq<Byte>, bits: seq<bool>, b: Bv)
    requires Valid(b) && b.length > 0 && Begins(before, bits) && Copied(before, dst, b, |bits|)
    ensures Begins(dst, bits + BitsOf(b))
  {
    var offset, all := |bits|, bits + BitsOf(b);
    forall p: nat | p < 8 * NumBytes(|all|)
      ensures DataBit(dst, p) == (p < |all| && all[p])
    {
      if p < offset {
        CopiedBelow(before, dst, bits, b, p);
      } else {
        CopiedAbove(before, dst, offset, b, p);
        var i := p - offset;
        assert i < b.length ==> all[p] == BitsOf(b)[i];
      }
    }
  }

  lemma CopiedBelow(before: seq<Byte>, dst: seq<Byte>, bits: seq<bool>, b: Bv, p: nat)
    requires b.length > 0 && Begins(before, bits) && Copied(before, dst, b, |bits|) && p < |bits|
    ensures DataBit(dst, p) == bits[p]
  {
    var q, i := p / 8, p % 8;
    assert DataBit(before, p) == bits[p];
    if q == |bits| / 8 {
      assert i < |bits| % 8;
      assert Bit(dst[q], i) == Bit(before[q], i);
    } else {
      assert q < |bits| / 8;
      assert dst[q] == before[q];
    }
  }

  lemma CopiedAbove(before: seq<Byte>, dst: seq<Byte>, offset: nat, b: Bv, p: nat)
    requires Copied(before, dst, b, offset) && offset <= p < 8 * NumBytes(offset + b.length)
    ensures DataBit(dst, p) == DataBit(b.data, p - offset)
  {
    var q, i := p / 8, p % 8;
    assert offset / 8 <= q < NumBytes(offset + b.length);
    assert ByteCopied(dst, b.data, offset, q);
    assert 8 * q + i == p;
  }

  ghost function TotalLength(bvs: seq<Bv>): nat {
    if bvs == [] then 0 else bvs[0].length + TotalLength(bvs[1..])
  }

  /** The bits of all vectors, those of the last vector least significant. */
  ghost function ConcatBits(bvs: seq<Bv>): (s: seq<bool>)
    ensures |s| == TotalLength(bvs)
  {
    if bvs == [] then [] else ConcatBits(bvs[1..]) + BitsOf(bvs[0])
  }

  lemma {:induction false} TotalLengthAppend(bvs: seq<Bv>, b: Bv)
    ensures TotalLength(bvs + [b]) == TotalLength(bvs) + b.length
  {
    if bvs != [] {
      TotalLengthAppend(bvs[1..], b);
      assert (bvs + [b])[1..] == bvs[1..] + [b];
    }
  }

  lemma {:induction false} TotalLengthSuffix(bvs: seq<Bv>, k: nat)
    requires k <= |bvs|
    ensures TotalLength(bvs[k..]) <= TotalLength(bvs)
  {
    if k > 0 {
      TotalLengthSuffix(bvs[1..], k - 1);
      assert bvs[k..] == bvs[1..][k - 1..];
    }
  }

  /** The concatenation of any vectors, whatever their offsets in the result. */
  method Concat(bvs: seq<Bv>) returns (r: Bv)
    requires forall i :: 0 <= i < |bvs| ==> Valid(bvs[i])
    ensures Valid(r) && BitsOf(r) == ConcatBits(bvs)
  {
    hide Valid; hide Begins; hide BitsOf;
    var length := 0;
    for i := 0 to |bvs|
      invariant length == TotalLength(bvs[..i])
    {
      TotalLengthAppend(bvs[..i], bvs[i]);
      assert bvs[..i + 1] == bvs[..i] + [bvs[i]];
      length := length + bvs[i].length;
    }
    assert bvs[..|bvs|] == bvs;
    var result := new Byte[NumBytes(length)];
    var offset, k := 0, |bvs|;
    BeginsEmpty(result[..]);
    while k > 0
      invariant 0 <= k <= |bvs| && offset == TotalLength(bvs[k..])
      invariant Begins(result[..], ConcatBits(bvs[k..]))
    {
      k := k - 1;
      ghost var before := result[..];
      assert bvs[k..][1..] == bvs[k + 1..];
      TotalLengthSuffix(bvs, k);
      offset := CopyInto(result, bvs[k], offset);
      if bvs[k].length > 0 {
        CopiedBegins(before, result[..], ConcatBits(bvs[k + 1..]), bvs[k]);
      } else {
        NoBits(bvs[k]);
        assert ConcatBits(bvs[k..]) == ConcatBits(bvs[k + 1..]);
      }
    }
    assert bvs[0..] == bvs;
    r := Bv(length, result[..]);
    BeginsAll(r, ConcatBits(bvs));
  }

  lemma BeginsEmpty(dst: seq<Byte>)
    ensures Begins(dst, [])
  {}

  lemma NoBits(b: Bv)
    requires b.length == 0
    ensures BitsOf(b) == []
  {}

  lemma BeginsAll(r: Bv, bits: seq<bool>)
    requires Begins(r.data, bits) && r.length == |bits| && |r.data| == NumBytes(r.length)
    ensures Valid(r) && BitsOf(r) == bits
  {}
}
