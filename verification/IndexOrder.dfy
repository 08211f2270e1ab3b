/**
 Index keys as bytes: NaN aside, `ix_compare` orders them as numbers, so the tree can be told about numbers only; and
 the page arithmetic of `create_index`.
 */
module IndexOrder {
  import opened Options
  import opened LogCodec

  datatype ColType = TypeInt | TypeFloat | TypeString
  datatype Column = Column(kind: ColType, len: nat)

  predicate WellSized(c: Column) {
    c.kind != TypeString ==> c.len == 4
  }

  ghost predicate AllSized(cols: seq<Column>) {
    forall i :: 0 <= i < |cols| ==> WellSized(cols[i])
  }

  function KeyLength(cols: seq<Column>): nat {
    if cols == [] then 0 else cols[0].len + KeyLength(cols[1..])
  }

  // ----- what a float column holds -----

  const FRACTION := 0x80_0000

  function Pow2(n: nat): (p: nat)
    ensures p > 0
  {
    if n == 0 then 1 else 2 * Pow2(n - 1)
  }

  function Exponent(bits: nat): nat {
    bits % TWO_31 / FRACTION
  }

  function Fraction(bits: nat): nat {
    bits % FRACTION
  }

  /** The absolute value in units of two to the power -149; a subnormal number has no hidden bit. */
  function Magnitude(bits: nat): nat {
    if Exponent(bits) == 0 then Fraction(bits) else (FRACTION + Fraction(bits)) * Pow2(Exponent(bits) - 1)
  }

  function Signed(bits: nat): int {
    if bits < TWO_31 then Magnitude(bits) else 0 - Magnitude(bits)
  }

  /** IEEE 754 single precision: sign, exponent and fraction; infinity counts as two to the power 128. */
  function FloatValue(bits: nat): real {
    Signed(bits) as real / Pow2(149) as real
  }

  predicate IsNan(bits: nat) {
    Exponent(bits) == 255 && Fraction(bits) != 0
  }

  lemma {:induction false} Twice(x: nat, y: nat)
    ensures 2 * (x * y) == 2 * x * y
  {
  }

  lemma {:induction false} Pow2Add(m: nat, n: nat)
    ensures Pow2(m + n) == Pow2(m) * Pow2(n)
  {
    hide Pow2;
    if m > 0 {
      Pow2Add(m - 1, n);
      Doubles(m);
      Doubles(m + n);
      Twice(Pow2(m - 1), Pow2(n));
    } else {
      FirstPower();
    }
  }

  lemma {:induction false} Pow2Grows(m: nat, n: nat)
    requires m <= n
    ensures Pow2(m) <= Pow2(n)
  {
    if m < n {
      Pow2Grows(m, n - 1);
    }
  }

  /** Between two powers of two. */
  lemma {:induction false} MagnitudeRange(bits: nat)
    ensures Exponent(bits) == 0 ==> Magnitude(bits) < FRACTION
    ensures Exponent(bits) > 0 ==>
              FRACTION * Pow2(Exponent(bits) - 1) <= Magnitude(bits) < FRACTION * Pow2(Exponent(bits))
  {
    hide Pow2;
    var e, f := Exponent(bits), Fraction(bits);
    if e > 0 {
      Doubles(e);
      Scales(FRACTION, FRACTION + f, Pow2(e - 1));
      Scales(FRACTION + f, 2 * FRACTION, Pow2(e - 1));
    }
  }

  lemma {:induction false} Doubles(e: nat)
    requires e > 0
    ensures Pow2(e) == 2 * Pow2(e - 1)
  {
  }

  lemma {:induction false} Scales(x: nat, y: nat, z: nat)
    requires z > 0
    ensures (x <= y ==> x * z <= y * z) && (x < y ==> x * z < y * z)
  {
  }

  /** The bits of a number, without the sign, grow with its absolute value. */
  lemma {:induction false} MagnitudeGrows(x: nat, y: nat)
    requires x % TWO_31 < y % TWO_31
    ensures Magnitude(x) < Magnitude(y)
  {
    hide Pow2, Magnitude;
    var d, e := Exponent(x), Exponent(y);
    BitsSplit(x);
    BitsSplit(y);
    MagnitudeRange(x);
    MagnitudeRange(y);
    if d < e {
      Pow2Grows(d, e - 1);
      Scales(Pow2(d), Pow2(e - 1), FRACTION);
      FirstPower();
    } else {
      SameExponent(x, y);
    }
  }

  lemma {:induction false} FirstPower()
    ensures Pow2(0) == 1
  {
  }

  lemma {:induction false} BitsSplit(bits: nat)
    ensures bits % TWO_31 == Exponent(bits) * FRACTION + Fraction(bits)
  {
    assert bits == bits / TWO_31 * TWO_31 + bits % TWO_31;
    assert TWO_31 == 256 * FRACTION;
    Residue(bits / TWO_31 * 256, bits % TWO_31);
  }

  lemma {:induction false} Residue(k: nat, r: nat)
    ensures (k * FRACTION + r) % FRACTION == r % FRACTION
  {
  }

  lemma {:induction false} SameExponent(x: nat, y: nat)
    requires Exponent(x) == Exponent(y) && Fraction(x) < Fraction(y)
    ensures Magnitude(x) < Magnitude(y)
  {
    hide Pow2;
    if Exponent(x) > 0 {
      Scales(FRACTION + Fraction(x), FRACTION + Fraction(y), Pow2(Exponent(x) - 1));
    }
  }

  /** Some numbers, written out: 1.0, -1.0, 1.5, 2.0 and the two zeros. */
  lemma {:induction false} FloatSamples()
    ensures FloatValue(0x3F80_0000) == 1.0 && FloatValue(0xBF80_0000) == -1.0 && FloatValue(0x3FC0_0000) == 1.5
    ensures FloatValue(0x4000_0000) == 2.0 && FloatValue(0) == 0.0 && FloatValue(0x8000_0000) == 0.0
  {
    hide Pow2;
    Pow2Add(126, 23);
    FractionIsPower();
    Doubles(127);
    var p := Pow2(126);
    assert Pow2(149) == p * FRACTION;
    assert Magnitude(0x3F80_0000) == Magnitude(0xBF80_0000) == FRACTION * p;
    assert Magnitude(0x3FC0_0000) == (FRACTION + 0x40_0000) * p;
    assert Magnitude(0x4000_0000) == FRACTION * (2 * p);
    Ratios(p);
  }

  lemma {:induction false} FractionIsPower()
    ensures Pow2(23) == FRACTION
  {
    assert Pow2(8) == 256;
    assert Pow2(7) == 128;
    Pow2Add(8, 8);
    Pow2Add(7, 16);
  }

  lemma {:induction false} Ratios(p: nat)
    requires p > 0
    ensures (FRACTION * p) as real / (p * FRACTION) as real == 1.0
    ensures (-(FRACTION * p)) as real / (p * FRACTION) as real == -1.0
    ensures ((FRACTION + 0x40_0000) * p) as real / (p * FRACTION) as real == 1.5
    ensures (FRACTION * (2 * p)) as real / (p * FRACTION) as real == 2.0
  {
    var q := (p * FRACTION) as real;
    assert ((FRACTION + 0x40_0000) * p) as real == 1.5 * q;
    assert (FRACTION * (2 * p)) as real == 2.0 * q;
    Quotient(1.0, q);
    Quotient(-1.0, q);
    Quotient(1.5, q);
    Quotient(2.0, q);
  }

  lemma {:induction false} Quotient(k: real, q: real)
    requires q > 0.0
    ensures k * q / q == k
  {
  }

  // ----- column values as numbers -----

  function BigEndian(bs: seq<Byte>): (n: nat)
    ensures n < Pow256(|bs|)
  {
    if bs == [] then 0
    else
      Weighs(bs[0], BigEndian(bs[1..]), Pow256(|bs| - 1));
      bs[0] * Pow256(|bs| - 1) + BigEndian(bs[1..])
  }

  lemma {:induction false} Weighs(d: nat, rest: nat, weight: nat)
    requires rest < weight && d < 256
    ensures d * weight + rest < 256 * weight
  {
    assert d * weight <= 255 * weight;
  }

  /** The order of IEEE 754 numbers that are no NaN, read off sign and bits. */
  function FloatOrder(bits: nat): (n: int) {
    if bits < TWO_31 then bits else TWO_31 - bits
  }

  function FloatAt(bs: seq<Byte>): int {
    FloatOrder(Decode(bs))
  }

  /** Numbers are ordered as their bits are. */
  lemma {:induction false} FloatOrderIs(x: nat, y: nat)
    requires x < TWO_32 && y < TWO_32
    ensures FloatOrder(x) < FloatOrder(y) <==> FloatValue(x) < FloatValue(y)
  {
    hide Pow2, Magnitude;
    SignedOrder(x, y);
    SignedOrder(y, x);
    Divided(Signed(x), Signed(y), Pow2(149));
  }

  lemma {:induction false} SignedOrder(x: nat, y: nat)
    requires x < TWO_32 && y < TWO_32
    ensures FloatOrder(x) < FloatOrder(y) <==> Signed(x) < Signed(y)
  {
    hide Magnitude;
    var m, n := x % TWO_31, y % TWO_31;
    ZeroMagnitude(x);
    ZeroMagnitude(y);
    if m < n {
      MagnitudeGrows(x, y);
    } else if n < m {
      MagnitudeGrows(y, x);
    } else {
      SameBits(x, y);
    }
  }

  lemma {:induction false} SameBits(x: nat, y: nat)
    requires x % TWO_31 == y % TWO_31
    ensures Magnitude(x) == Magnitude(y)
  {
    hide Pow2;
    BitsSplit(x);
    BitsSplit(y);
  }

  lemma {:induction false} ZeroMagnitude(x: nat)
    ensures Magnitude(x) == 0 <==> x % TWO_31 == 0
  {
    hide Magnitude;
    NoBits();
    if x % TWO_31 > 0 {
      MagnitudeGrows(0, x);
    } else {
      SameBits(x, 0);
    }
  }

  lemma {:induction false} NoBits()
    ensures Magnitude(0) == 0
  {
  }

  lemma {:induction false} Divided(x: int, y: int, d: nat)
    requires d > 0
    ensures x < y <==> x as real / d as real < y as real / d as real
  {
    var q := d as real;
    Quotient(x as real / q, q);
    Quotient(y as real / q, q);
    assert x as real / q * q == x as real && y as real / q * q == y as real;
  }

  function Base(c: Column): (b: nat) {
    if c.kind == TypeString then Pow256(c.len) else TWO_32
  }

  function Digit(c: Column, bs: seq<Byte>): int {
    match c.kind
    case TypeInt => DecodeInt(bs) + TWO_31
    case TypeFloat => FloatAt(bs) + TWO_31
    case TypeString => BigEndian(bs)
  }

  lemma {:induction false} DigitBound(c: Column, bs: seq<Byte>)
    requires WellSized(c) && |bs| == c.len
    ensures 0 <= Digit(c, bs) < Base(c)
  {
    hide Decode, BigEndian;
    EncodeDecode(bs);
    assert Pow256(4) == TWO_32;
  }

  function Radix(cols: seq<Column>): (r: nat) {
    if cols == [] then 1 else Base(cols[0]) * Radix(cols[1..])
  }

  /** The place of a key in the order: its columns as digits, the first the most significant. */
  function Rank(cols: seq<Column>, key: seq<Byte>): int
    requires |key| == KeyLength(cols)
  {
    if cols == [] then 0
    else Digit(cols[0], key[..cols[0].len]) * Radix(cols[1..]) + Rank(cols[1..], key[cols[0].len..])
  }

  lemma {:induction false} Places(d: int, b: nat, rest: int, r: nat)
    requires 0 <= d < b && 0 <= rest < r
    ensures 0 <= d * r + rest < b * r
  {
    assert d * r <= (b - 1) * r;
  }

  lemma {:induction false} RankBound(cols: seq<Column>, key: seq<Byte>)
    requires AllSized(cols) && |key| == KeyLength(cols)
    ensures 0 <= Rank(cols, key) < Radix(cols)
  {
    hide Digit, Base;
    if cols != [] {
      assert WellSized(cols[0]);
      RankBound(cols[1..], key[cols[0].len..]);
      DigitBound(cols[0], key[..cols[0].len]);
      Places(Digit(cols[0], key[..cols[0].len]), Base(cols[0]), Rank(cols[1..], key[cols[0].len..]), Radix(cols[1..]));
    }
  }

  /** The first different digit decides. */
  lemma {:induction false} FirstDecides(d: int, e: int, x: int, y: int, r: nat)
    requires 0 <= x < r && 0 <= y < r
    ensures d < e ==> d * r + x < e * r + y
    ensures d == e ==> (d * r + x < e * r + y <==> x < y)
  {
    if d < e {
      assert (d + 1) * r <= e * r;
    }
  }

  // ----- comparisons -----

  /** `res` tells the order of `x` and `y`. */
  predicate Tells(res: int, x: int, y: int) {
    (res < 0 <==> x < y) && (res > 0 <==> x > y)
  }

  /** `x` and `y` are ordered as `u` and `v`. */
  predicate SameOrder(x: int, y: int, u: int, v: int) {
    (x < y <==> u < v) && (x > y <==> u > v)
  }

  predicate TellsReal(res: int, x: real, y: real) {
    (res < 0 <==> x < y) && (res > 0 <==> x > y)
  }

  ghost predicate TellsBytes(a: seq<Byte>, b: seq<Byte>, res: int)
    requires |a| == |b|
  {
    && (a == b ==> res == 0)
    && forall i :: 0 <= i < |a| && a[..i] == b[..i] && a[i] != b[i] ==> Tells(res, a[i], b[i])
  }

  /**
   What comparing one column says: integers by their value, floats by theirs, with NaN equal to everything, strings by
   the first byte that differs.
   */
  ghost predicate ColumnTells(c: Column, a: seq<Byte>, b: seq<Byte>, res: int)
    requires WellSized(c) && |a| == |b| == c.len
  {
    match c.kind
    case TypeInt =>
      forall x, y :: Int32(x) && Int32(y) && a == EncodeInt(x) && b == EncodeInt(y) ==> Tells(res, x, y)
    case TypeFloat =>
      if IsNan(Word(a)) || IsNan(Word(b)) then res == 0 else TellsReal(res, FloatValue(Word(a)), FloatValue(Word(b)))
    case TypeString => TellsBytes(a, b, res)
  }

  predicate HasNan(c: Column, bs: seq<Byte>)
    requires WellSized(c) && |bs| == c.len
  {
    c.kind == TypeFloat && IsNan(Word(bs))
  }

  predicate SameSign(r: int, s: int) {
    (r < 0 <==> s < 0) && (r > 0 <==> s > 0)
  }

  /** There is only one answer, but for its size. */
  lemma {:induction false} ColumnDecides(c: Column, a: seq<Byte>, b: seq<Byte>, r: int, s: int)
    requires WellSized(c) && |a| == |b| == c.len && ColumnTells(c, a, b, r) && ColumnTells(c, a, b, s)
    ensures SameSign(r, s)
  {
    hide FloatValue, EncodeInt, DecodeInt, Word;
    match c.kind {
      case TypeInt =>
        EncodeDecodeInt(a);
        EncodeDecodeInt(b);
        assert Tells(r, DecodeInt(a), DecodeInt(b)) && Tells(s, DecodeInt(a), DecodeInt(b));
      case TypeFloat =>
      case TypeString =>
        if a != b {
          var i := DifferAt(a, b);
          assert Tells(r, a[i], b[i]) && Tells(s, a[i], b[i]);
        }
    }
  }

  lemma {:induction false} DifferAt(a: seq<Byte>, b: seq<Byte>) returns (i: nat)
    requires |a| == |b| && a != b
    ensures i < |a| && a[..i] == b[..i] && a[i] != b[i]
  {
    if a[0] != b[0] {
      i := 0;
    } else {
      assert a == [a[0]] + a[1..] && b == [b[0]] + b[1..];
      var j := DifferAt(a[1..], b[1..]);
      i := j + 1;
      assert a[..i] == [a[0]] + a[1..][..j] && b[..i] == [b[0]] + b[1..][..j];
    }
  }

  /** NaN is why floats are no order: 1.0 and 2.0 both equal it, but not each other. */
  lemma {:induction false} NanBreaksOrder()
    ensures var c, one, two, nan := Column(TypeFloat, 4), [0, 0, 0x80, 0x3F], [0, 0, 0, 0x40], [0, 0, 0xC0, 0x7F];
            ColumnTells(c, one, nan, 0) && ColumnTells(c, nan, two, 0) && !ColumnTells(c, one, two, 0)
  {
    hide FloatValue, Pow2;
    FloatSamples();
  }

  method Memcmp(a: seq<Byte>, b: seq<Byte>) returns (res: int)
    requires |a| == |b|
    ensures Tells(res, BigEndian(a), BigEndian(b)) && TellsBytes(a, b, res)
  {
    hide BigEndian, Pow256;
    var i := 0;
    assert a[0..] == a && b[0..] == b;
    while i < |a|
      invariant 0 <= i <= |a| && a[..i] == b[..i]
      invariant SameOrder(BigEndian(a[i..]), BigEndian(b[i..]), BigEndian(a), BigEndian(b))
    {
      FirstByte(a[i..], b[i..]);
      var x: int, y: int := a[i], b[i];
      if x != y {
        FirstDiffers(a, b, i);
        return x - y;
      }
      assert a[i..][1..] == a[i + 1..] && b[i..][1..] == b[i + 1..];
      i := i + 1;
    }
    assert a[i..] == b[i..];
    return 0;
  }

  lemma {:induction false} FirstDiffers(a: seq<Byte>, b: seq<Byte>, i: nat)
    requires |a| == |b| && i < |a| && a[..i] == b[..i] && a[i] != b[i]
    ensures forall j :: 0 <= j < |a| && a[..j] == b[..j] && a[j] != b[j] ==> j == i
  {
    SameStart(a, b, i);
    forall j | 0 <= j < |a| && a[..j] == b[..j] && a[j] != b[j] ensures j == i {
      SameStart(a, b, j);
    }
  }

  lemma {:induction false} SameStart(a: seq<Byte>, b: seq<Byte>, n: nat)
    requires n <= |a| && n <= |b| && a[..n] == b[..n]
    ensures forall i :: 0 <= i < n ==> a[i] == b[i]
  {
    forall i | 0 <= i < n ensures a[i] == b[i] {
      assert a[..n][i] == b[..n][i];
    }
  }

  lemma {:induction false} FirstByte(a: seq<Byte>, b: seq<Byte>)
    requires |a| == |b| > 0
    ensures a[0] < b[0] ==> BigEndian(a) < BigEndian(b)
    ensures a[0] > b[0] ==> BigEndian(a) > BigEndian(b)
    ensures a[0] == b[0] ==> (BigEndian(a) < BigEndian(b) <==> BigEndian(a[1..]) < BigEndian(b[1..]))
    ensures a[0] == b[0] ==> (BigEndian(a) > BigEndian(b) <==> BigEndian(a[1..]) > BigEndian(b[1..]))
  {
    hide Pow256;
    var r := Pow256(|a| - 1);
    FirstDecides(a[0], b[0], BigEndian(a[1..]), BigEndian(b[1..]), r);
    FirstDecides(b[0], a[0], BigEndian(b[1..]), BigEndian(a[1..]), r);
  }

  method CompareColumn(c: Column, a: seq<Byte>, b: seq<Byte>) returns (res: int)
    requires WellSized(c) && |a| == |b| == c.len
    ensures ColumnTells(c, a, b, res)
    ensures !HasNan(c, a) && !HasNan(c, b) ==> Tells(res, Digit(c, a), Digit(c, b))
  {
    hide Decode, BigEndian, FloatValue, FloatOrder, TellsBytes;
    match c.kind {
      case TypeInt =>
        IntColumn(a, b);
        var x, y := DecodeInt(a), DecodeInt(b);
        res := if x < y then -1 else if x > y then 1 else 0;
      case TypeFloat =>
        FloatColumn(a, b);
        var x, y := Word(a), Word(b);
        if IsNan(x) || IsNan(y) {
          return 0;
        }
        res := if FloatValue(x) < FloatValue(y) then -1 else if FloatValue(x) > FloatValue(y) then 1 else 0;
      case TypeString =>
        res := Memcmp(a, b);
    }
  }

  lemma {:induction false} IntColumn(a: seq<Byte>, b: seq<Byte>)
    ensures forall x, y :: Int32(x) && Int32(y) && a == EncodeInt(x) && b == EncodeInt(y) ==>
              x == DecodeInt(a) && y == DecodeInt(b)
  {
    forall x, y | Int32(x) && Int32(y) && a == EncodeInt(x) && b == EncodeInt(y)
      ensures x == DecodeInt(a) && y == DecodeInt(b)
    {
      DecodeEncodeInt(x);
      DecodeEncodeInt(y);
    }
  }

  lemma {:induction false} FloatColumn(a: seq<Byte>, b: seq<Byte>)
    requires |a| == |b| == 4
    ensures FloatAt(a) < FloatAt(b) <==> FloatValue(Word(a)) < FloatValue(Word(b))
    ensures FloatAt(a) > FloatAt(b) <==> FloatValue(Word(a)) > FloatValue(Word(b))
  {
    hide Decode, FloatValue, FloatOrder;
    FourBytes(a);
    FourBytes(b);
    FloatOrderIs(Word(a), Word(b));
    FloatOrderIs(Word(b), Word(a));
  }

  lemma {:induction false} FirstColumn(cols: seq<Column>, a: seq<Byte>, b: seq<Byte>, res: int)
    requires AllSized(cols) && cols != [] && |a| == |b| == KeyLength(cols)
    requires Tells(res, Digit(cols[0], a[..cols[0].len]), Digit(cols[0], b[..cols[0].len]))
    ensures res != 0 ==> Tells(res, Rank(cols, a), Rank(cols, b))
    ensures res == 0 ==>
              SameOrder(Rank(cols[1..], a[cols[0].len..]), Rank(cols[1..], b[cols[0].len..]), Rank(cols, a),
                        Rank(cols, b))
  {
    hide Digit, Radix;
    var n := cols[0].len;
    RankBound(cols[1..], a[n..]);
    RankBound(cols[1..], b[n..]);
    FirstDecides(Digit(cols[0], a[..n]), Digit(cols[0], b[..n]), Rank(cols[1..], a[n..]), Rank(cols[1..], b[n..]),
                 Radix(cols[1..]));
    FirstDecides(Digit(cols[0], b[..n]), Digit(cols[0], a[..n]), Rank(cols[1..], b[n..]), Rank(cols[1..], a[n..]),
                 Radix(cols[1..]));
  }

  /** Column `i` of a key. */
  function ColumnOf(cols: seq<Column>, key: seq<Byte>, i: nat): (bs: seq<Byte>)
    requires i < |cols| && |key| == KeyLength(cols)
    ensures |bs| == cols[i].len
  {
    LengthSplit(cols, i);
    key[KeyLength(cols[..i])..KeyLength(cols[..i]) + cols[i].len]
  }

  lemma {:induction false} LengthSplit(cols: seq<Column>, i: nat)
    requires i <= |cols|
    ensures KeyLength(cols[..i]) + KeyLength(cols[i..]) == KeyLength(cols)
    ensures i < |cols| ==> KeyLength(cols[i..]) == cols[i].len + KeyLength(cols[i + 1..])
  {
    if i < |cols| {
      assert cols[i..][1..] == cols[i + 1..];
    }
    if i == 0 {
      assert cols[0..] == cols;
    } else {
      LengthSplit(cols[1..], i - 1);
      assert cols[..i][1..] == cols[1..][..i - 1] && cols[1..][i - 1..] == cols[i..];
    }
  }

  ghost predicate EqualBefore(cols: seq<Column>, a: seq<Byte>, b: seq<Byte>, n: nat)
    requires AllSized(cols) && |a| == |b| == KeyLength(cols) && n <= |cols|
  {
    forall i :: 0 <= i < n ==> ColumnTells(cols[i], ColumnOf(cols, a, i), ColumnOf(cols, b, i), 0)
  }

  /** What comparing keys says: the first column that tells them apart decides. */
  ghost predicate KeysTell(cols: seq<Column>, a: seq<Byte>, b: seq<Byte>, res: int)
    requires AllSized(cols) && |a| == |b| == KeyLength(cols)
  {
    if res == 0 then EqualBefore(cols, a, b, |cols|)
    else
      exists k :: 0 <= k < |cols| && EqualBefore(cols, a, b, k) &&
                  ColumnTells(cols[k], ColumnOf(cols, a, k), ColumnOf(cols, b, k), res)
  }

  lemma {:induction false} KeysDecide(cols: seq<Column>, a: seq<Byte>, b: seq<Byte>, r: int, s: int)
    requires AllSized(cols) && |a| == |b| == KeyLength(cols) && KeysTell(cols, a, b, r) && KeysTell(cols, a, b, s)
    ensures SameSign(r, s)
  {
    hide ColumnTells, ColumnOf;
    if r != 0 {
      var k :| 0 <= k < |cols| && EqualBefore(cols, a, b, k) &&
               ColumnTells(cols[k], ColumnOf(cols, a, k), ColumnOf(cols, b, k), r);
      if s == 0 {
        ColumnDecides(cols[k], ColumnOf(cols, a, k), ColumnOf(cols, b, k), r, 0);
      } else {
        var m :| 0 <= m < |cols| && EqualBefore(cols, a, b, m) &&
                 ColumnTells(cols[m], ColumnOf(cols, a, m), ColumnOf(cols, b, m), s);
        SameColumn(cols, a, b, k, m, r);
        SameColumn(cols, a, b, m, k, s);
        ColumnDecides(cols[k], ColumnOf(cols, a, k), ColumnOf(cols, b, k), r, s);
      }
    } else if s != 0 {
      var m :| 0 <= m < |cols| && EqualBefore(cols, a, b, m) &&
               ColumnTells(cols[m], ColumnOf(cols, a, m), ColumnOf(cols, b, m), s);
      ColumnDecides(cols[m], ColumnOf(cols, a, m), ColumnOf(cols, b, m), s, 0);
    }
  }

  lemma {:induction false} SameColumn(cols: seq<Column>, a: seq<Byte>, b: seq<Byte>, k: nat, m: nat, r: int)
    requires AllSized(cols) && |a| == |b| == KeyLength(cols) && k < |cols| && m <= |cols| && r != 0
    requires EqualBefore(cols, a, b, m) && ColumnTells(cols[k], ColumnOf(cols, a, k), ColumnOf(cols, b, k), r)
    ensures m <= k
  {
    hide ColumnTells, ColumnOf;
    if k < m {
      ColumnDecides(cols[k], ColumnOf(cols, a, k), ColumnOf(cols, b, k), r, 0);
    }
  }

  ghost predicate NoNan(cols: seq<Column>, key: seq<Byte>)
    requires AllSized(cols) && |key| == KeyLength(cols)
  {
    forall i :: 0 <= i < |cols| ==> !HasNan(cols[i], ColumnOf(cols, key, i))
  }

  /** `ix_compare` on whole keys: column by column, and so, without NaN, the order of the ranks. */
  method Compare(cols: seq<Column>, a: seq<Byte>, b: seq<Byte>) returns (res: int)
    requires AllSized(cols) && |a| == |b| == KeyLength(cols)
    ensures KeysTell(cols, a, b, res)
    ensures NoNan(cols, a) && NoNan(cols, b) ==> Tells(res, Rank(cols, a), Rank(cols, b))
  {
    hide Rank, Digit, ColumnTells, KeyLength, HasNan;
    var i, offset := 0, 0;
    assert cols[0..] == cols && a[0..] == a && b[0..] == b;
    Lengths(cols, 0);
    while i < |cols|
      invariant 0 <= i <= |cols| && 0 <= offset <= |a| && offset == KeyLength(cols[..i])
      invariant |a| - offset == KeyLength(cols[i..]) && EqualBefore(cols, a, b, i)
      invariant NoNan(cols, a) && NoNan(cols, b) ==>
                  SameOrder(Rank(cols[i..], a[offset..]), Rank(cols[i..], b[offset..]), Rank(cols, a), Rank(cols, b))
    {
      var n := cols[i].len;
      Lengths(cols, i);
      res := CompareColumn(cols[i], a[offset..offset + n], b[offset..offset + n]);
      NextColumn(cols, a, b, i, offset, res);
      if res != 0 {
        return;
      }
      i, offset := i + 1, offset + n;
    }
    res := 0;
    NoColumns(cols[i..], a[offset..], b[offset..]);
  }

  lemma {:induction false} NextColumn(cols: seq<Column>, a: seq<Byte>, b: seq<Byte>, i: nat, offset: nat, res: int)
    requires AllSized(cols) && |a| == |b| == KeyLength(cols) && i < |cols| && offset == KeyLength(cols[..i])
    requires offset + cols[i].len <= |a| && |a| - offset == KeyLength(cols[i..])
    requires |a| - offset - cols[i].len == KeyLength(cols[i + 1..])
    requires NoNan(cols, a) && NoNan(cols, b) ==>
               Tells(res, Digit(cols[i], a[offset..offset + cols[i].len]),
                     Digit(cols[i], b[offset..offset + cols[i].len]))
    ensures NoNan(cols, a) && NoNan(cols, b) ==>
              var u, v := Rank(cols[i..], a[offset..]), Rank(cols[i..], b[offset..]);
              var n := offset + cols[i].len;
              && (res != 0 ==> Tells(res, u, v))
              && (res == 0 ==> SameOrder(Rank(cols[i + 1..], a[n..]), Rank(cols[i + 1..], b[n..]), u, v))
  {
    hide Rank, Digit, KeyLength, NoNan;
    if NoNan(cols, a) && NoNan(cols, b) {
      var rest, x, y, n := cols[i..], a[offset..], b[offset..], cols[i].len;
      assert rest[0] == cols[i] && rest[1..] == cols[i + 1..];
      assert a[offset..offset + n] == x[..n] && b[offset..offset + n] == y[..n];
      assert x[n..] == a[offset + n..] && y[n..] == b[offset + n..];
      FirstColumn(rest, x, y, res);
    }
  }

  lemma {:induction false} Lengths(cols: seq<Column>, i: nat)
    requires i <= |cols|
    ensures KeyLength(cols[..0]) == 0 && KeyLength(cols[..i]) + KeyLength(cols[i..]) == KeyLength(cols)
    ensures i < |cols| ==>
              KeyLength(cols[..i + 1]) == KeyLength(cols[..i]) + cols[i].len &&
              KeyLength(cols[i..]) == cols[i].len + KeyLength(cols[i + 1..])
  {
    LengthSplit(cols, i);
    if i < |cols| {
      LengthSplit(cols, i + 1);
    }
  }

  lemma {:induction false} NoColumns(cols: seq<Column>, a: seq<Byte>, b: seq<Byte>)
    requires cols == [] && |a| == |b| == KeyLength(cols)
    ensures Rank(cols, a) == Rank(cols, b)
  {
  }

  // ----- the order of the tree -----

  const PAGE_SIZE := 4096
  const PAGE_HEADER_SIZE := 24
  const RID_SIZE := 8
  const MAX_KEY_LENGTH := 512

  /** `create_index` refuses long keys, and otherwise fills a page: one entry more than the order fits, two do not. */
  method TreeOrder(cols: seq<Column>) returns (order: Option<int>)
    ensures order == None <==> KeyLength(cols) > MAX_KEY_LENGTH
    ensures order.Some? ==> order.value > 2
    ensures order.Some? ==> var n, size := order.value, KeyLength(cols) + RID_SIZE;
                            PAGE_HEADER_SIZE + (n + 1) * size <= PAGE_SIZE < PAGE_HEADER_SIZE + (n + 2) * size
  {
    var total := 0;
    assert cols[0..] == cols;
    for i := 0 to |cols|
      invariant total + KeyLength(cols[i..]) == KeyLength(cols) && 0 <= total
    {
      assert cols[i..][1..] == cols[i + 1..];
      total := total + cols[i].len;
    }
    if total > MAX_KEY_LENGTH {
      return None;
    }
    var size := total + RID_SIZE;
    var q := (PAGE_SIZE - PAGE_HEADER_SIZE) / size;
    Division(PAGE_SIZE - PAGE_HEADER_SIZE, size, q);
    AtLeast(q, size);
    return Some(q - 1);
  }

  lemma {:induction false} Division(n: nat, d: nat, q: nat)
    requires d > 0 && q == n / d
    ensures q * d <= n < (q + 1) * d
  {
  }

  lemma {:induction false} AtLeast(q: nat, size: nat)
    requires RID_SIZE <= size <= MAX_KEY_LENGTH + RID_SIZE && PAGE_SIZE - PAGE_HEADER_SIZE < (q + 1) * size
    ensures q > 3
  {
    Monotone(q + 1, 4, size);
  }

  lemma {:induction false} Monotone(x: nat, y: nat, z: nat)
    ensures x <= y ==> x * z <= y * z
  {
  }
}
