/** Slices and bitwise operations of packed bit vectors (asllib/bitvector.ml). */
module BitvectorSlices {
  import opened Prelude
  import opened Bits
  import opened Bitvector

  // ---------------------------------------------------------------- masking the padding

  lemma AndIsByte(a: Byte, m: nat)
    ensures Bitwise(And(), a, m) < 256
  {
    forall i: nat | i >= 8
      ensures !Bit(Bitwise(And(), a, m), i)
    {
      BitwiseBit(And(), a, m, i);
      ByteHighBits(a);
    }
    IsByte(Bitwise(And(), a, m));
  }

  /** remask: clears the padding bits of the last byte. */
  function Remask(length: nat, data: seq<Byte>): seq<Byte>
    requires |data| == NumBytes(length)
  {
    var n, m := length / 8, length % 8;
    if m == 0 then data
    else
      AndIsByte(data[n], Mask(m));
      data[n := Bitwise(And(), data[n], Mask(m))]
  }

  lemma RemaskBit(length: nat, data: seq<Byte>, p: nat)
    requires |data| == NumBytes(length)
    ensures DataBit(Remask(length, data), p) == (p < length && DataBit(data, p))
  {
    var n, m := length / 8, length % 8;
    if m > 0 && p / 8 == n {
      BitwiseBit(And(), data[n], Mask(m), p % 8);
      MaskBit(m, p % 8);
    }
  }

  lemma RemaskValid(length: nat, data: seq<Byte>)
    requires |data| == NumBytes(length)
    ensures Valid(Bv(length, Remask(length, data)))
    ensures forall p: nat :: p < length ==> DataBit(Remask(length, data), p) == DataBit(data, p)
  {
    forall p: nat
      ensures DataBit(Remask(length, data), p) == (p < length && DataBit(data, p))
    {
      RemaskBit(length, data, p);
    }
  }

  /** remask edits the bytes in place; its callers in this module hold the only reference to them. */
  method RemaskInPlace(length: nat, data: array<Byte>)
    requires data.Length == NumBytes(length)
    modifies data
    ensures data[..] == Remask(length, old(data[..])) && Valid(Bv(length, data[..]))
    ensures forall p: nat :: p < length ==> DataBit(data[..], p) == old(DataBit(data[..], p))
  {
    RemaskValid(length, data[..]);
    var n, m := length / 8, length % 8;
    if m != 0 {
      AndIsByte(data[n], Mask(m));
      data[n] := Bitwise(And(), data[n], Mask(m));
    }
  }

  // ---------------------------------------------------------------- single bits

  /** set_bit_raw */
  function SetBitRaw(i: nat, dst: Byte, b: bool): nat {
    Bitwise(Or(), Bitwise(AndNot(), dst, Shl(1, i)), Shl(BitOf(b), i))
  }

  lemma OneBit(b: bool, k: nat)
    ensures Bit(BitOf(b), k) == (b && k == 0)
  {
    if k > 0 {
      ZeroBit(k - 1);
    }
  }

  lemma SetBitRawBit(i: nat, dst: Byte, b: bool, k: nat)
    ensures Bit(SetBitRaw(i, dst, b), k) == if k == i then b else Bit(dst, k)
  {
    var cleared := Bitwise(AndNot(), dst, Shl(1, i));
    BitwiseBit(Or(), cleared, Shl(BitOf(b), i), k);
    BitwiseBit(AndNot(), dst, Shl(1, i), k);
    ShlBit(1, i, k);
    ShlBit(BitOf(b), i, k);
    if k >= i {
      OneBit(true, k - i);
      OneBit(b, k - i);
    }
  }

  lemma SetBitRawByte(i: nat, dst: Byte, b: bool)
    requires i < 8
    ensures SetBitRaw(i, dst, b) < 256
  {
    forall k: nat | k >= 8
      ensures !Bit(SetBitRaw(i, dst, b), k)
    {
      SetBitRawBit(i, dst, b, k);
      ByteHighBits(dst);
    }
    IsByte(SetBitRaw(i, dst, b));
  }

  /** Writes the bit b into dst at position posDst. */
  method PutBit(dst: array<Byte>, b: bool, posDst: nat)
    requires posDst / 8 < dst.Length
    modifies dst
    ensures forall p: nat :: DataBit(dst[..], p) == if p == posDst then b else old(DataBit(dst[..], p))
  {
    SetBitRawByte(posDst % 8, dst[posDst / 8], b);
    ghost var before := dst[..];
    dst[posDst / 8] := SetBitRaw(posDst % 8, dst[posDst / 8], b);
    CopyBitSpec(before, dst[..], posDst, b);
  }

  /** Writes into dst at position posDst the bit of src at position posSrc. */
  method CopyBit(dst: array<Byte>, src: seq<Byte>, posSrc: nat, posDst: nat)
    requires posSrc / 8 < |src| && posDst / 8 < dst.Length
    modifies dst
    ensures forall p: nat :: DataBit(dst[..], p) == if p == posDst then DataBit(src, posSrc) else old(DataBit(dst[..], p))
  {
    PutBit(dst, Bit(src[posSrc / 8], posSrc % 8), posDst);
  }

  lemma CopyBitSpec(before: seq<Byte>, dst: seq<Byte>, pos: nat, b: bool)
    requires pos / 8 < |before|
    requires SetBitRaw(pos % 8, before[pos / 8], b) < 256
    requires dst == before[pos / 8 := SetBitRaw(pos % 8, before[pos / 8], b)]
    ensures forall p: nat :: DataBit(dst, p) == if p == pos then b else DataBit(before, p)
  {
    forall p: nat
      ensures DataBit(dst, p) == if p == pos then b else DataBit(before, p)
    {
      if p / 8 == pos / 8 {
        SetBitRawBit(pos % 8, before[pos / 8], b, p % 8);
        assert p == 8 * (p / 8) + p % 8 && pos == 8 * (pos / 8) + pos % 8;
      }
    }
  }

  // ---------------------------------------------------------------- extract_slice

  predicate InData(bv: Bv, positions: seq<nat>) {
    forall i :: 0 <= i < |positions| ==> positions[i] / 8 < |bv.data|
  }

  /** The bits at the given positions, the last position least significant. */
  ghost predicate IsExtract(bv: Bv, positions: seq<nat>, r: Bv) {
    && Valid(r) && r.length == |positions|
    && forall i :: 0 <= i < |positions| ==> DataBit(r.data, |positions| - 1 - i) == DataBit(bv.data, positions[i])
  }

  /** None is the Invalid_argument of an access beyond the data. */
  method ExtractSlice(bv: Bv, positions: seq<nat>) returns (r: Option<Bv>)
    ensures r.Some? <==> InData(bv, positions)
    ensures r.Some? ==> IsExtract(bv, positions, r.value)
  {
    var length := |positions|;
    var result := new Byte[NumBytes(length)];
    for i := 0 to length
      invariant InData(bv, positions[..i])
      invariant forall k :: 0 <= k < i ==> DataBit(result[..], length - 1 - k) == DataBit(bv.data, positions[k])
    {
      if positions[i] / 8 >= |bv.data| {
        return None;
      }
      CopyBit(result, bv.data, positions[i], length - 1 - i);
      assert positions[..i + 1] == positions[..i] + [positions[i]];
    }
    assert positions[..length] == positions;
    RemaskInPlace(length, result);
    r := Some(Bv(length, result[..]));
  }

  // ---------------------------------------------------------------- write_slice

  /** The last index at which p occurs. */
  function LastIndex(positions: seq<nat>, p: nat): Option<nat> {
    if positions == [] then None
    else if positions[|positions| - 1] == p then Some(|positions| - 1)
    else LastIndex(positions[..|positions| - 1], p)
  }

  /** How many bits of src are written at the positions. */
  function BitsTaken(src: Bv, positions: seq<nat>): nat {
    if |positions| <= src.length then |positions| else src.length
  }

  /**
   * The bit copied to the i-th of the positions when n bits are taken, from the most significant on. After those the
   * first byte is shifted by a negative amount k; what that gives is unspecified, and is `beyond` of k here.
   */
  ghost function SourceBit(src: Bv, n: nat, i: nat, beyond: nat -> bool): bool {
    if i < n then DataBit(src.data, n - 1 - i) else beyond(i - n + 1)
  }

  /** The source byte for the i-th position can be read. */
  predicate Readable(src: Bv, n: nat, i: nat) {
    i < n || (i - n + 1 < 8 && src.data != [])
  }

  /** Division by eight that rounds towards zero, as the code divides. */
  function Truncated(a: int): int {
    if a >= 0 then a / 8 else -(-a / 8)
  }

  lemma TruncatedSpec(a: int)
    ensures -8 < a - 8 * Truncated(a) < 8
    ensures a >= 0 ==> a - 8 * Truncated(a) >= 0
    ensures a <= 0 ==> a - 8 * Truncated(a) <= 0
  {}

  /** The byte of the i-th bit, counted down from bit n - 1, exists. */
  lemma ReadableSpec(src: Bv, n: nat, i: nat)
    requires Valid(src) && n <= src.length
    ensures Readable(src, n, i) <==> 0 <= Truncated(n - 1 - i) < |src.data|
  {
    ValidSize(src);
    TruncatedSpec(n - 1 - i);
  }

  /** The number of bits taken is the smaller of the two lengths. */
  lemma BitsTakenSpec(src: Bv, positions: seq<nat>)
    ensures BitsTaken(src, positions) <= src.length && BitsTaken(src, positions) <= |positions|
    ensures BitsTaken(src, positions) == src.length || BitsTaken(src, positions) == |positions|
  {}

  /** Bit p of dst after writing at the positions; the last write to a position counts. */
  ghost function WrittenBit(dst: Bv, src: Bv, positions: seq<nat>, n: nat, beyond: nat -> bool, p: nat): bool {
    match LastIndex(positions, p)
    case None => DataBit(dst.data, p)
    case Some(i) => SourceBit(src, n, i, beyond)
  }

  /** What write_slice makes of dst. */
  ghost predicate IsWritten(dst: Bv, src: Bv, positions: seq<nat>, beyond: nat -> bool, w: Bv) {
    && Valid(w) && w.length == dst.length
    && forall p: nat :: p < dst.length ==>
         DataBit(w.data, p) == WrittenBit(dst, src, positions, BitsTaken(src, positions), beyond, p)
  }

  /** None is the Invalid_argument of an access beyond the data of dst or before that of src. */
  method WriteSlice(dst: Bv, src: Bv, positions: seq<nat>, beyond: nat -> bool) returns (r: Option<Bv>)
    requires Valid(dst) && Valid(src)
    ensures r.Some? <==>
              InData(dst, positions) && forall i: nat :: i < |positions| ==> Readable(src, BitsTaken(src, positions), i)
    ensures r.Some? ==> IsWritten(dst, src, positions, beyond, r.value)
  {
    hide Valid; hide Readable; hide SourceBit;
    ValidSize(dst);
    var n := BitsTaken(src, positions);
    var result := new Byte[|dst.data|](i requires 0 <= i < |dst.data| => dst.data[i]);
    assert result[..] == dst.data;
    for i := 0 to |positions|
      invariant InData(dst, positions[..i]) && forall j: nat :: j < i ==> Readable(src, n, j)
      invariant forall p: nat :: DataBit(result[..], p) == WrittenBit(dst, src, positions[..i], n, beyond, p)
    {
      if positions[i] / 8 >= |dst.data| || !Readable(src, n, i) {
        return None;
      }
      CopyHere(result, src, n, i, positions[i], beyond);
      assert positions[..i + 1] == positions[..i] + [positions[i]];
      assert positions[..i + 1][..i] == positions[..i];
    }
    assert positions[..|positions|] == positions;
    RemaskInPlace(dst.length, result);
    r := Some(Bv(dst.length, result[..]));
  }

  /** copy_bit_here */
  method CopyHere(result: array<Byte>, src: Bv, n: nat, i: nat, pos: nat, beyond: nat -> bool)
    requires Valid(src) && n <= src.length && Readable(src, n, i) && pos / 8 < result.Length
    modifies result
    ensures forall p: nat ::
              DataBit(result[..], p) == if p == pos then SourceBit(src, n, i, beyond) else old(DataBit(result[..], p))
  {
    if i < n {
      ValidSize(src);
      CopyBit(result, src.data, n - 1 - i, pos);
    } else {
      PutBit(result, beyond(i - n + 1), pos);
    }
  }

  lemma ValidSize(b: Bv)
    requires Valid(b)
    ensures |b.data| == NumBytes(b.length)
  {}

  ghost predicate Distinct(positions: seq<nat>) {
    forall i, j :: 0 <= i < j < |positions| ==> positions[i] != positions[j]
  }

  lemma {:induction false} LastIndexSpec(positions: seq<nat>, p: nat)
    ensures LastIndex(positions, p).None? <==> p !in positions
    ensures LastIndex(positions, p).Some? ==>
              LastIndex(positions, p).value < |positions| && positions[LastIndex(positions, p).value] == p
  {
    if positions != [] {
      var n := |positions| - 1;
      LastIndexSpec(positions[..n], p);
      assert positions == positions[..n] + [positions[n]];
    }
  }

  /** Writing a vector at distinct positions of dst and reading there gives it back; every other bit is unchanged. */
  lemma WriteThenExtract(dst: Bv, src: Bv, positions: seq<nat>, beyond: nat -> bool, w: Bv, x: Bv)
    requires Valid(dst) && Valid(src) && src.length == |positions| && Distinct(positions)
    requires forall i :: 0 <= i < |positions| ==> positions[i] < dst.length
    requires IsWritten(dst, src, positions, beyond, w)
    requires IsExtract(w, positions, x)
    ensures x == src
    ensures forall p: nat :: p < dst.length && p !in positions ==> DataBit(w.data, p) == DataBit(dst.data, p)
  {
    forall p: nat | p < 8 * |src.data|
      ensures DataBit(x.data, p) == DataBit(src.data, p)
    {
      if p < src.length {
        var i := |positions| - 1 - p;
        LastIndexSpec(positions, positions[i]);
        assert DataBit(x.data, |positions| - 1 - i) == DataBit(w.data, positions[i]);
      }
    }
    SameData(x.data, src.data);
    forall p: nat | p < dst.length && p !in positions
      ensures DataBit(w.data, p) == DataBit(dst.data, p)
    {
      LastIndexSpec(positions, p);
    }
  }

  // ---------------------------------------------------------------- bitwise operations

  lemma BitwiseByte(op: (bool, bool) -> bool, a: Byte, b: Byte)
    requires !op(false, false)
    ensures Bitwise(op, a, b) < 256
  {
    forall i: nat | i >= 8
      ensures !Bit(Bitwise(op, a, b), i)
    {
      BitwiseBit(op, a, b, i);
      ByteHighBits(a);
      ByteHighBits(b);
    }
    IsByte(Bitwise(op, a, b));
  }

  ghost predicate IsBitwise(op: (bool, bool) -> bool, x: Bv, y: Bv, r: Bv) {
    && Valid(r) && r.length == x.length
    && forall p: nat :: p < x.length ==> DataBit(r.data, p) == op(DataBit(x.data, p), DataBit(y.data, p))
  }

  /** bitwise_op; None is the Invalid_argument of different lengths. */
  method BitwiseOp(op: (bool, bool) -> bool, x: Bv, y: Bv) returns (r: Option<Bv>)
    requires Valid(x) && Valid(y) && !op(false, false)
    ensures r.Some? <==> x.length == y.length
    ensures r.Some? ==> IsBitwise(op, x, y, r.value)
  {
    if x.length != y.length {
      return None;
    }
    var length := x.length;
    var n, m := length / 8, length % 8;
    var result := new Byte[NumBytes(length)];
    for i := 0 to n
      invariant forall k :: 0 <= k < i ==> result[k] == Bitwise(op, x.data[k], y.data[k])
    {
      BitwiseByte(op, x.data[i], y.data[i]);
      result[i] := Bitwise(op, x.data[i], y.data[i]);
    }
    if m != 0 {
      AndIsByte(x.data[n], Mask(m));
      AndIsByte(y.data[n], Mask(m));
      var a, b := Bitwise(And(), x.data[n], Mask(m)), Bitwise(And(), y.data[n], Mask(m));
      BitwiseByte(op, a, b);
      AndIsByte(Bitwise(op, a, b), Mask(m));
      result[n] := Bitwise(And(), Bitwise(op, a, b), Mask(m));
    }
    BitwiseOpSpec(op, x, y, result[..]);
    r := Some(Bv(length, result[..]));
  }

  /** logxor: its last remask changes nothing. */
  method LogXor(x: Bv, y: Bv) returns (r: Option<Bv>)
    requires Valid(x) && Valid(y)
    ensures r.Some? <==> x.length == y.length
    ensures r.Some? ==> Valid(r.value) && r.value.length == x.length
    ensures r.Some? ==> forall p: nat :: p < x.length ==> DataBit(r.value.data, p) == (DataBit(x.data, p) != DataBit(y.data, p))
  {
    var combined := BitwiseOp(Xor(), x, y);
    if combined.None? {
      return None;
    }
    ValidSize(combined.value);
    RemaskValid(combined.value.length, combined.value.data);
    r := Some(Bv(combined.value.length, Remask(combined.value.length, combined.value.data)));
  }

  method LogAnd(x: Bv, y: Bv) returns (r: Option<Bv>)
    requires Valid(x) && Valid(y)
    ensures r.Some? <==> x.length == y.length
    ensures r.Some? ==> Valid(r.value) && r.value.length == x.length
    ensures r.Some? ==> forall p: nat :: p < x.length ==> DataBit(r.value.data, p) == (DataBit(x.data, p) && DataBit(y.data, p))
  {
    r := BitwiseOp(And(), x, y);
  }

  method LogOr(x: Bv, y: Bv) returns (r: Option<Bv>)
    requires Valid(x) && Valid(y)
    ensures r.Some? <==> x.length == y.length
    ensures r.Some? ==> Valid(r.value) && r.value.length == x.length
    ensures r.Some? ==> forall p: nat :: p < x.length ==> DataBit(r.value.data, p) == (DataBit(x.data, p) || DataBit(y.data, p))
  {
    r := BitwiseOp(Or(), x, y);
  }

  /** The last byte of bitwise_op, masked before and after. */
  function MaskedOp(op: (bool, bool) -> bool, m: nat, a: Byte, b: Byte): nat {
    Bitwise(And(), Bitwise(op, Bitwise(And(), a, Mask(m)), Bitwise(And(), b, Mask(m))), Mask(m))
  }

  lemma MaskedOpBit(op: (bool, bool) -> bool, m: nat, a: Byte, b: Byte, i: nat)
    requires !op(false, false)
    ensures Bit(MaskedOp(op, m, a, b), i) == (i < m && op(Bit(a, i), Bit(b, i)))
  {
    var a', b' := Bitwise(And(), a, Mask(m)), Bitwise(And(), b, Mask(m));
    BitwiseBit(And(), Bitwise(op, a', b'), Mask(m), i);
    BitwiseBit(op, a', b', i);
    BitwiseBit(And(), a, Mask(m), i);
    BitwiseBit(And(), b, Mask(m), i);
    MaskBit(m, i);
  }

  lemma BitwiseOpSpec(op: (bool, bool) -> bool, x: Bv, y: Bv, data: seq<Byte>)
    requires Valid(x) && Valid(y) && x.length == y.length && !op(false, false) && |data| == NumBytes(x.length)
    requires forall k :: 0 <= k < x.length / 8 ==> data[k] == Bitwise(op, x.data[k], y.data[k])
    requires x.length % 8 != 0 ==>
               data[x.length / 8] == MaskedOp(op, x.length % 8, x.data[x.length / 8], y.data[x.length / 8])
    ensures IsBitwise(op, x, y, Bv(x.length, data))
  {
    hide Bit; hide Bitwise; hide MaskedOp;
    forall p: nat
      ensures DataBit(data, p) == (p < x.length && op(DataBit(x.data, p), DataBit(y.data, p)))
    {
      var q, i := p / 8, p % 8;
      if q < x.length / 8 {
        BitwiseBit(op, x.data[q], y.data[q], i);
      } else if q < |data| {
        MaskedOpBit(op, x.length % 8, x.data[q], y.data[q], i);
      }
    }
  }

  /** (lnot c) land 0xff */
  function NotByte(c: Byte): Byte {
    AndNotByte(c);
    Bitwise(AndNot(), Mask(8), c)
  }

  lemma AndNotByte(c: Byte)
    ensures Bitwise(AndNot(), Mask(8), c) < 256
    ensures forall i: nat :: Bit(Bitwise(AndNot(), Mask(8), c), i) == (i < 8 && !Bit(c, i))
  {
    forall i: nat
      ensures Bit(Bitwise(AndNot(), Mask(8), c), i) == (i < 8 && !Bit(c, i))
    {
      BitwiseBit(AndNot(), Mask(8), c, i);
      MaskBit(8, i);
    }
    IsByte(Bitwise(AndNot(), Mask(8), c));
  }

  function LogNot(x: Bv): Bv
    requires |x.data| == NumBytes(x.length)
  {
    Bv(x.length, Remask(x.length, seq(|x.data|, i requires 0 <= i < |x.data| => NotByte(x.data[i]))))
  }

  lemma LogNotSpec(x: Bv)
    requires Valid(x)
    ensures Valid(LogNot(x)) && forall p: nat :: p < x.length ==> DataBit(LogNot(x).data, p) == !DataBit(x.data, p)
  {
    var d: seq<Byte> := seq(|x.data|, i requires 0 <= i < |x.data| => NotByte(x.data[i]));
    RemaskValid(x.length, d);
    forall p: nat | p < x.length
      ensures DataBit(d, p) == !DataBit(x.data, p)
    {
      AndNotByte(x.data[p / 8]);
    }
  }
}
