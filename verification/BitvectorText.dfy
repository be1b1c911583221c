/** Bit vectors as text, and matching against masks (asllib/bitvector.ml). */
module BitvectorText {
  import opened Prelude
  import opened Bits
  import opened Bitvector
  import opened BitvectorSlices

  // ---------------------------------------------------------------- meaning of the text

  /** The binary digits of s as bits, the last digit first; other characters do not count. */
  function Digits(s: string): seq<bool> {
    if s == [] then []
    else Digits(s[1..]) + if s[0] == '0' || s[0] == '1' then [s[0] == '1'] else []
  }

  /** read_bit: the printed form of one bit. */
  function Digit(b: bool): char {
    if b then '1' else '0'
  }

  /** The bits printed most significant first. */
  function Show(bits: seq<bool>): string {
    if bits == [] then "" else Show(bits[1..]) + [Digit(bits[0])]
  }

  function Quoted(bits: seq<bool>): string {
    "'" + Show(bits) + "'"
  }

  lemma {:induction false} DigitsAppend(s: string, t: string)
    ensures Digits(s + t) == Digits(t) + Digits(s)
  {
    if s == [] {
      assert s + t == t;
    } else {
      assert (s + t)[1..] == s[1..] + t;
      DigitsAppend(s[1..], t);
    }
  }

  lemma {:induction false} DigitsOfShow(bits: seq<bool>)
    ensures Digits(Show(bits)) == bits
  {
    if bits != [] {
      var last := [Digit(bits[0])];
      DigitsOfShow(bits[1..]);
      DigitsAppend(Show(bits[1..]), last);
      assert last[1..] == [] && Digits(last) == [bits[0]];
    }
  }

  /** of_string after to_string gives the same vector. */
  lemma RoundTrip(x: Bv, y: Bv)
    requires Valid(x) && Valid(y) && BitsOf(y) == Digits(Quoted(BitsOf(x)))
    ensures y == x
  {
    var q := "'";
    assert q[1..] == [] && Digits(q) == [];
    DigitsAppend(q, Show(BitsOf(x)));
    DigitsAppend(q + Show(BitsOf(x)), q);
    DigitsOfShow(BitsOf(x));
    EqualSpec(x, y);
  }

  // ---------------------------------------------------------------- to_string

  lemma {:induction false} ShowAppend(a: seq<bool>, b: seq<bool>)
    ensures Show(a + b) == Show(b) + Show(a)
  {
    if a == [] {
      assert a + b == b;
    } else {
      assert (a + b)[1..] == a[1..] + b;
      ShowAppend(a[1..], b);
    }
  }

  ghost function LowBits(c: Byte, k: nat): (s: seq<bool>)
    ensures |s| == k && (forall j: nat :: j < k ==> s[j] == Bit(c, j))
  {
    seq(k, (j: nat) => Bit(c, j))
  }

  /** The inner loop of to_string: the k low bits of c, from the highest. */
  method AddBits(result: string, c: Byte, k: nat) returns (r: string)
    ensures r == result + Show(LowBits(c, k))
  {
    hide Bit;
    ghost var bits := LowBits(c, k);
    r := result;
    assert bits[k..] == [];
    for j := k downto 0
      invariant r == result + Show(bits[j..])
    {
      assert bits[j..][1..] == bits[j + 1..];
      r := r + [Digit(Bit(c, j))];
    }
    assert bits[0..] == bits;
  }

  /** The bits of a vector from bit 8q on are those of byte q, then the rest. */
  lemma BytePrefix(x: Bv, q: nat, k: nat)
    requires Valid(x) && q < |x.data| && 8 * q + k <= x.length && k <= 8
    ensures BitsOf(x)[8 * q..] == LowBits(x.data[q], k) + BitsOf(x)[8 * q + k..]
  {
    hide Bit;
    var a, b := BitsOf(x)[8 * q..], LowBits(x.data[q], k);
    forall j: nat | j < k
      ensures a[j] == b[j]
    {
      assert (8 * q + j) / 8 == q && (8 * q + j) % 8 == j;
    }
    assert a[..k] == b && a[k..] == BitsOf(x)[8 * q + k..];
  }

  lemma ByteShown(x: Bv, q: nat, k: nat)
    requires Valid(x) && q < |x.data| && 8 * q + k <= x.length && k <= 8
    ensures "'" + Show(BitsOf(x)[8 * q..]) == "'" + Show(BitsOf(x)[8 * q + k..]) + Show(LowBits(x.data[q], k))
  {
    BytePrefix(x, q, k);
    ShowAppend(LowBits(x.data[q], k), BitsOf(x)[8 * q + k..]);
  }

  lemma NothingShown(bits: seq<bool>)
    ensures "'" == "'" + Show(bits[|bits|..]) && bits[0..] == bits
  {}

  method ToString(x: Bv) returns (r: string)
    requires Valid(x)
    ensures r == Quoted(BitsOf(x))
  {
    hide Bit; hide BitsOf; hide LowBits; hide Show; hide Valid;
    ghost var bits := BitsOf(x);
    ValidSize(x);
    var n, m := x.length / 8, x.length % 8;
    assert x.length == 8 * n + m;
    r := "'";
    NothingShown(bits);
    if m != 0 {
      ByteShown(x, n, m);
      r := AddBits(r, x.data[n], m);
    }
    for i := n downto 0
      invariant r == "'" + Show(bits[8 * i..])
    {
      ByteShown(x, i, 8);
      assert 8 * i + 8 == 8 * (i + 1);
      r := AddBits(r, x.data[i], 8);
    }
    r := r + "'";
  }

  // ---------------------------------------------------------------- of_string

  /** Full bytes `data` and the bits collected so far in `last` hold exactly these bits. */
  ghost predicate Packs(data: seq<Byte>, last: Byte, bits: seq<bool>) {
    |data| == |bits| / 8 && forall p: nat :: DataBit(data + [last], p) == (p < |bits| && bits[p])
  }

  /** The byte after the next digit. */
  function PutDigit(c: Byte, m: nat, one: bool): nat {
    if one then Bitwise(Or(), c, Shl(1, m)) else c
  }

  lemma PutDigitBit(c: Byte, m: nat, one: bool, i: nat)
    ensures Bit(PutDigit(c, m, one), i) == (Bit(c, i) || (one && i == m))
  {
    if one {
      BitwiseBit(Or(), c, Shl(1, m), i);
      ShlBit(1, m, i);
      if i >= m {
        OneBit(true, i - m);
      }
    }
  }

  lemma PutDigitByte(c: Byte, m: nat, one: bool)
    requires m < 8
    ensures PutDigit(c, m, one) < 256
  {
    forall i: nat | i >= 8
      ensures !Bit(PutDigit(c, m, one), i)
    {
      PutDigitBit(c, m, one, i);
      ByteHighBits(c);
    }
    IsByte(PutDigit(c, m, one));
  }

  lemma PacksNext(data: seq<Byte>, last: Byte, bits: seq<bool>, one: bool, data': seq<Byte>, last': Byte)
    requires Packs(data, last, bits) && PutDigit(last, |bits| % 8, one) < 256
    requires var c := PutDigit(last, |bits| % 8, one);
             if |bits| % 8 == 7 then data' == data + [c] && last' == 0 else data' == data && last' == c
    ensures Packs(data', last', bits + [one])
  {
    hide Bit; hide PutDigit;
    var n, m := |bits| / 8, |bits| % 8;
    var c := PutDigit(last, m, one);
    assert |bits| == 8 * n + m;
    forall p: nat
      ensures DataBit(data' + [last'], p) == (p < |bits| + 1 && (bits + [one])[p])
    {
      assert DataBit(data + [last], p) == (p < |bits| && bits[p]);
      assert p == 8 * (p / 8) + p % 8;
      PutDigitBit(last, m, one, p % 8);
      ZeroBit(p % 8);
      if p / 8 < n {
        assert (data' + [last'])[p / 8] == (data + [last])[p / 8];
      } else if p / 8 == n {
        assert (data' + [last'])[n] == c && (data + [last])[n] == last;
        assert p == |bits| <==> p % 8 == m;
      }
    }
  }

  method OfString(s: string) returns (r: Bv)
    ensures Valid(r) && BitsOf(r) == Digits(s)
  {
    hide Bit; hide PutDigit; hide Packs;
    var result: seq<Byte>, length, lastChar: Byte := [], 0, 0;
    ghost var bits: seq<bool> := [];
    NothingPacked();
    assert s[|s|..] == [];
    for i := |s| downto 0
      invariant bits == Digits(s[i..]) && length == |bits| && Packs(result, lastChar, bits)
    {
      assert s[i..][1..] == s[i + 1..];
      if s[i] == '0' || s[i] == '1' {
        var m := length % 8;
        PutDigitByte(lastChar, m, s[i] == '1');
        var c: Byte := PutDigit(lastChar, m, s[i] == '1');
        ghost var data, last := result, lastChar;
        if m == 7 {
          result, lastChar := result + [c], 0;
        } else {
          lastChar := c;
        }
        length := length + 1;
        PacksNext(data, last, bits, s[i] == '1', result, lastChar);
        bits := bits + [s[i] == '1'];
      }
    }
    assert s[0..] == s;
    var m := length % 8;
    if m != 0 {
      AndIsByte(lastChar, Mask(m));
      PackedDone(result, lastChar, bits);
      result := result + [Bitwise(And(), lastChar, Mask(m))];
    } else {
      PackedDone(result, lastChar, bits);
    }
    r := Bv(length, result);
  }

  lemma NothingPacked()
    ensures Packs([], 0, [])
  {
    forall p: nat
      ensures !DataBit([] + [0], p)
    {
      ZeroBit(p % 8);
    }
  }

  lemma PackedDone(data: seq<Byte>, last: Byte, bits: seq<bool>)
    requires Packs(data, last, bits)
    ensures var m := |bits| % 8;
            Bitwise(And(), last, Mask(m)) < 256 &&
            var r := Bv(|bits|, if m != 0 then data + [Bitwise(And(), last, Mask(m))] else data);
            Valid(r) && BitsOf(r) == bits
  {
    hide Bit; hide Bitwise; hide Mask;
    var m := |bits| % 8;
    AndIsByte(last, Mask(m));
    var r := Bv(|bits|, if m != 0 then data + [Bitwise(And(), last, Mask(m))] else data);
    forall p: nat
      ensures DataBit(r.data, p) == (p < |bits| && bits[p])
    {
      assert DataBit(data + [last], p) == (p < |bits| && bits[p]);
      if p / 8 == |data| {
        BitwiseBit(And(), last, Mask(m), p % 8);
        MaskBit(m, p % 8);
        assert |bits| == 8 * |data| + m && p == 8 * |data| + p % 8;
      }
    }
  }

  // ---------------------------------------------------------------- masks

  /** The three vectors of a mask: bits that must be one, must be zero, and are compared at all. */
  datatype BitMask = BitMask(length: nat, ones: Bv, zeros: Bv, specified: Bv, initialString: string)

  /** What of_string makes of a mask character after the first, second and third substitution. */
  function OnesChar(c: char): char { if c == 'x' then '0' else c }
  function ZerosChar(c: char): char { if c == 'x' then '0' else if c == '0' then '1' else if c == '1' then '0' else c }
  function SpecifiedChar(c: char): char { if c == 'x' then '0' else if c == '0' then '1' else c }

  function Substitute(f: char -> char, s: string): string {
    if s == "" then "" else [f(s[0])] + Substitute(f, s[1..])
  }

  /** The mask characters of s, the last one first. */
  function Cells(s: string): string {
    if s == "" then ""
    else Cells(s[1..]) + if s[0] == '0' || s[0] == '1' || s[0] == 'x' then [s[0]] else ""
  }

  /** f sends mask characters to digits, and leaves all others alone. */
  ghost predicate ToDigits(f: char -> char) {
    && (f('0') == '0' || f('0') == '1') && f('1') in "01" && f('x') in "01"
    && forall c: char :: c !in "01x" ==> f(c) == c
  }

  lemma {:induction false} SubstituteDigits(f: char -> char, s: string)
    requires ToDigits(f)
    ensures |Digits(Substitute(f, s))| == |Cells(s)|
    ensures forall p :: 0 <= p < |Cells(s)| ==>
              Cells(s)[p] in "01x" && Digits(Substitute(f, s))[p] == (f(Cells(s)[p]) == '1')
  {
    if s != "" {
      SubstituteDigits(f, s[1..]);
      assert Substitute(f, s)[1..] == Substitute(f, s[1..]);
    }
  }

  /** The mask of a string says what its characters say. */
  ghost predicate IsMask(mask: BitMask) {
    var s := mask.initialString;
    && mask.length == |Cells(s)|
    && Valid(mask.ones) && Valid(mask.zeros) && Valid(mask.specified)
    && mask.ones.length == mask.zeros.length == mask.specified.length == mask.length
    && forall p: nat :: p < mask.length ==>
         && DataBit(mask.ones.data, p) == (Cells(s)[p] == '1')
         && DataBit(mask.zeros.data, p) == (Cells(s)[p] == '0')
         && DataBit(mask.specified.data, p) == (Cells(s)[p] != 'x')
  }

  /** mask_of_string; its Invalid_argument, different lengths, never happens. */
  method MaskOfString(s: string) returns (r: Option<BitMask>)
    ensures r.Some? && r.value.initialString == s && IsMask(r.value)
  {
    var ones := OfString(Substitute(OnesChar, s));
    var zeros := OfString(Substitute(ZerosChar, s));
    var specified := OfString(Substitute(SpecifiedChar, s));
    MaskSpec(s, ones, zeros, specified);
    if ones.length != zeros.length || ones.length != specified.length {
      r := None;
    } else {
      r := Some(BitMask(ones.length, ones, zeros, specified, s));
    }
  }

  lemma MaskSpec(s: string, ones: Bv, zeros: Bv, specified: Bv)
    requires Valid(ones) && BitsOf(ones) == Digits(Substitute(OnesChar, s))
    requires Valid(zeros) && BitsOf(zeros) == Digits(Substitute(ZerosChar, s))
    requires Valid(specified) && BitsOf(specified) == Digits(Substitute(SpecifiedChar, s))
    ensures IsMask(BitMask(ones.length, ones, zeros, specified, s))
  {
    hide DataBit;
    SubstituteDigits(OnesChar, s);
    SubstituteDigits(ZerosChar, s);
    SubstituteDigits(SpecifiedChar, s);
    forall p: nat | p < ones.length
      ensures DataBit(ones.data, p) == (Cells(s)[p] == '1')
      ensures DataBit(zeros.data, p) == (Cells(s)[p] == '0')
      ensures DataBit(specified.data, p) == (Cells(s)[p] != 'x')
    {
      assert BitsOf(ones)[p] == DataBit(ones.data, p) && BitsOf(zeros)[p] == DataBit(zeros.data, p);
      assert BitsOf(specified)[p] == DataBit(specified.data, p);
    }
  }

  lemma {:induction false} OnlyCells(s: string)
    ensures forall p :: 0 <= p < |Cells(s)| ==> Cells(s)[p] == '0' || Cells(s)[p] == '1' || Cells(s)[p] == 'x'
  {
    if s != "" {
      OnlyCells(s[1..]);
    }
  }

  /** Every mask character other than x is the bit at its place. */
  ghost predicate Agrees(x: Bv, s: string) {
    && x.length == |Cells(s)|
    && forall p: nat :: p < x.length && Cells(s)[p] != 'x' ==> DataBit(x.data, p) == (Cells(s)[p] == '1')
  }

  /** matches holds iff every character of the mask other than x is the bit at its place; None is the Invalid_argument. */
  method Matches(x: Bv, mask: BitMask) returns (r: Option<bool>)
    requires Valid(x) && IsMask(mask)
    ensures r.None? <==> x.length != mask.length
    ensures r.Some? ==> (r.value <==> Agrees(x, mask.initialString))
  {
    hide DataBit; hide Cells; hide IsBitwise; hide And; hide Or;
    if x.length != mask.length {
      return None;
    }
    AndOr();
    var ones := BitwiseOp(And(), x, mask.ones);
    LogNotSpec(x);
    var zeros := BitwiseOp(And(), LogNot(x), mask.zeros);
    BitwiseLength(And(), x, mask.ones, ones.value);
    BitwiseLength(And(), LogNot(x), mask.zeros, zeros.value);
    var both := BitwiseOp(Or(), ones.value, zeros.value);
    MatchesSpec(x, mask, ones.value, zeros.value, both.value);
    r := Some(Equal(mask.specified, both.value));
  }

  lemma AndOr()
    ensures !And()(false, false) && !Or()(false, false)
  {}

  lemma BitwiseLength(op: (bool, bool) -> bool, x: Bv, y: Bv, r: Bv)
    requires IsBitwise(op, x, y, r)
    ensures Valid(r) && r.length == x.length
  {}

  lemma MatchesSpec(x: Bv, mask: BitMask, ones: Bv, zeros: Bv, both: Bv)
    requires Valid(x) && IsMask(mask) && x.length == mask.length
    requires IsBitwise(And(), x, mask.ones, ones) && Valid(LogNot(x)) && IsBitwise(And(), LogNot(x), mask.zeros, zeros)
    requires IsBitwise(Or(), ones, zeros, both)
    ensures Equal(mask.specified, both) <==> Agrees(x, mask.initialString)
  {
    hide DataBit; hide Cells; hide LogNot;
    var s := mask.initialString;
    LogNotSpec(x);
    OnlyCells(s);
    forall p: nat | p < x.length
      ensures Cells(s)[p] != 'x' ==>
        (DataBit(both.data, p) == DataBit(mask.specified.data, p) <==> DataBit(x.data, p) == (Cells(s)[p] == '1'))
      ensures Cells(s)[p] == 'x' ==> DataBit(both.data, p) == DataBit(mask.specified.data, p)
    {
      assert DataBit(ones.data, p) == (DataBit(x.data, p) && DataBit(mask.ones.data, p));
      assert DataBit(zeros.data, p) == (!DataBit(x.data, p) && DataBit(mask.zeros.data, p));
      assert DataBit(both.data, p) == (DataBit(ones.data, p) || DataBit(zeros.data, p));
    }
    EqualBits(mask.specified, both);
  }

  lemma EqualBits(x: Bv, y: Bv)
    requires Valid(x) && Valid(y) && x.length == y.length
    ensures Equal(x, y) <==> forall p: nat :: p < x.length ==> DataBit(x.data, p) == DataBit(y.data, p)
  {
    hide DataBit;
    EqualSpec(x, y);
    if forall p: nat :: p < x.length ==> DataBit(x.data, p) == DataBit(y.data, p) {
      assert BitsOf(x) == BitsOf(y);
    }
  }
}
