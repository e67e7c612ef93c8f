/** DECFLOAT values: the IEEE 754-2008 decimal interchange formats (decimal encoding of
    the significand) as the driver decodes them, and the standard's encoding beside it. */
module DecFloat {
  import opened Bytes
  import opened ModularPower
  import opened BigEndian
  import opened DecimalText

  /** One more than the masks of the trailing significands: five and eleven declets. */
  const TAIL64: nat := 0x4_0000_0000_0000
  const TAIL128: nat := 0x4000_0000_0000_0000_0000_0000_0000
  /** The part of a trailing significand that fills whole bytes. */
  const WHOLE64: nat := 0x1_0000_0000_0000
  const WHOLE128: nat := 0x100_0000_0000_0000_0000_0000_0000

  /** One more than the largest coefficients: 16 and 34 digits. */
  const LIMIT64: nat := 10_000_000_000_000_000
  const LIMIT128: nat := 10_000_000_000_000_000_000_000_000_000_000_000

  // --- declets ----------------------------------------------------------

  function Bit(dpd: nat, mask: nat): (b: nat)
    requires mask > 0
    ensures b < 2
  {
    dpd / mask % 2
  }

  /** Three digits out of ten bits, branch by branch. */
  function DpdToInt(dpd: nat): Option<nat> {
    var b9, b8, b7, b6, b5 := Bit(dpd, 0x200), Bit(dpd, 0x100), Bit(dpd, 0x80), Bit(dpd, 0x40), Bit(dpd, 0x20);
    var b4, b3, b2, b1, b0 := Bit(dpd, 0x10), Bit(dpd, 8), Bit(dpd, 4), Bit(dpd, 2), Bit(dpd, 1);
    DigitsOfBits(b9, b8, b7, b6, b5, b4, b3, b2, b1, b0)
  }

  function DigitsOfBits(b9: nat, b8: nat, b7: nat, b6: nat, b5: nat,
                        b4: nat, b3: nat, b2: nat, b1: nat, b0: nat): Option<nat>
  {
    if b3 == 0 then
      Some(100 * (b9 * 4 + b8 * 2 + b7) + 10 * (b6 * 4 + b5 * 2 + b4) + (b2 * 4 + b1 * 2 + b0))
    else if b3 == 1 && b2 == 0 && b1 == 0 then
      Some(100 * (b9 * 4 + b8 * 2 + b7) + 10 * (b6 * 4 + b5 * 2 + b4) + (8 + b0))
    else if b3 == 1 && b2 == 0 && b1 == 1 then
      Some(100 * (b9 * 4 + b8 * 2 + b7) + 10 * (8 + b4) + (b6 * 4 + b5 * 2 + b0))
    else if b3 == 1 && b2 == 1 && b1 == 0 then
      Some(100 * (8 + b7) + 10 * (b6 * 4 + b5 * 2 + b4) + (b9 * 4 + b8 * 2 + b0))
    else if b6 == 0 && b5 == 0 && b3 == 1 && b2 == 1 && b1 == 1 then
      Some(100 * (8 + b7) + 10 * (8 + b4) + (b9 * 4 + b8 * 2 + b0))
    else if b6 == 0 && b5 == 1 && b3 == 1 && b2 == 1 && b1 == 1 then
      Some(100 * (8 + b7) + 10 * (b9 * 4 + b8 * 2 + b4) + (8 + b0))
    else if b6 == 1 && b5 == 0 && b3 == 1 && b2 == 1 && b1 == 1 then
      Some(100 * (b9 * 4 + b8 * 2 + b7) + 10 * (8 + b4) + (8 + b0))
    else if b6 == 1 && b5 == 1 && b3 == 1 && b2 == 1 && b1 == 1 then
      Some(100 * (8 + b7) + 10 * (8 + b4) + (8 + b0))
    else None
  }

  /** The standard's encoding of three digits (section 3.5.2, table 3.4): the digits' bits
      are abcd, efgh and ijkm; the indicator bits a, e, i select the layout. */
  function EncodeBits(a: nat, b: nat, c: nat, d: nat, e: nat, f: nat,
                      g: nat, h: nat, i: nat, j: nat, k: nat, m: nat): nat
  {
    match (a == 1, e == 1, i == 1)
    case (false, false, false) => Declet(b, c, d, f, g, h, 0, j, k, m)
    case (false, false, true)  => Declet(b, c, d, f, g, h, 1, 0, 0, m)
    case (false, true, false)  => Declet(b, c, d, j, k, h, 1, 0, 1, m)
    case (true, false, false)  => Declet(j, k, d, f, g, h, 1, 1, 0, m)
    case (true, true, false)   => Declet(j, k, d, 0, 0, h, 1, 1, 1, m)
    case (true, false, true)   => Declet(f, g, d, 0, 1, h, 1, 1, 1, m)
    case (false, true, true)   => Declet(b, c, d, 1, 0, h, 1, 1, 1, m)
    case (true, true, true)    => Declet(0, 0, d, 1, 1, h, 1, 1, 1, m)
  }

  function EncodeDeclet(n: nat): nat
    requires n < 1000
  {
    var x, y, z := n / 100, n / 10 % 10, n % 10;
    EncodeBits(x / 8, x / 4 % 2, x / 2 % 2, x % 2,
               y / 8, y / 4 % 2, y / 2 % 2, y % 2,
               z / 8, z / 4 % 2, z / 2 % 2, z % 2)
  }

  function Declet(p: nat, q: nat, r: nat, s: nat, t: nat, u: nat, v: nat, w: nat, x: nat, y: nat): nat {
    512 * p + 256 * q + 128 * r + 64 * s + 32 * t + 16 * u + 8 * v + 4 * w + 2 * x + y
  }

  lemma BitsOfDeclet(p: nat, q: nat, r: nat, s: nat, t: nat, u: nat, v: nat, w: nat, x: nat, y: nat)
    requires p < 2 && q < 2 && r < 2 && s < 2 && t < 2 && u < 2 && v < 2 && w < 2 && x < 2 && y < 2
    ensures var d := Declet(p, q, r, s, t, u, v, w, x, y);
            && d < 1024
            && DpdToInt(d) == DigitsOfBits(p, q, r, s, t, u, v, w, x, y)
  {
    var d := Declet(p, q, r, s, t, u, v, w, x, y);
    BitIs(d, 0x200, 0, p, 256 * q + 128 * r + 64 * s + 32 * t + 16 * u + 8 * v + 4 * w + 2 * x + y);
    BitIs(d, 0x100, p, q, 128 * r + 64 * s + 32 * t + 16 * u + 8 * v + 4 * w + 2 * x + y);
    BitIs(d, 0x80, 2 * p + q, r, 64 * s + 32 * t + 16 * u + 8 * v + 4 * w + 2 * x + y);
    BitIs(d, 0x40, 4 * p + 2 * q + r, s, 32 * t + 16 * u + 8 * v + 4 * w + 2 * x + y);
    BitIs(d, 0x20, 8 * p + 4 * q + 2 * r + s, t, 16 * u + 8 * v + 4 * w + 2 * x + y);
    BitIs(d, 0x10, 16 * p + 8 * q + 4 * r + 2 * s + t, u, 8 * v + 4 * w + 2 * x + y);
    BitIs(d, 8, 32 * p + 16 * q + 8 * r + 4 * s + 2 * t + u, v, 4 * w + 2 * x + y);
    BitIs(d, 4, 64 * p + 32 * q + 16 * r + 8 * s + 4 * t + 2 * u + v, w, 2 * x + y);
    BitIs(d, 2, 128 * p + 64 * q + 32 * r + 16 * s + 8 * t + 4 * u + 2 * v + w, x, y);
    BitIs(d, 1, 256 * p + 128 * q + 64 * r + 32 * s + 16 * t + 8 * u + 4 * v + 2 * w + x, y, 0);
    hide Bit, DigitsOfBits, Declet;
  }

  lemma BitIs(d: nat, mask: nat, high: nat, b: nat, low: nat)
    requires mask > 0 && d == mask * (2 * high + b) + low && low < mask && b < 2
    ensures Bit(d, mask) == b
  {
    RemainderIs(d, mask, 2 * high + b, low);
  }

  predicate DigitBits(a: nat, b: nat, c: nat, d: nat) {
    a < 2 && b < 2 && c < 2 && d < 2 && (a == 1 ==> b == 0 && c == 0)
  }

  lemma BitsOfDigit(x: nat)
    requires x < 10
    ensures DigitBits(x / 8, x / 4 % 2, x / 2 % 2, x % 2)
    ensures x == 8 * (x / 8) + 4 * (x / 4 % 2) + 2 * (x / 2 % 2) + x % 2
  {
  }

  lemma BitsRoundTrip(a: nat, b: nat, c: nat, d: nat, e: nat, f: nat, g: nat, h: nat, i: nat, j: nat, k: nat, m: nat)
    requires DigitBits(a, b, c, d) && DigitBits(e, f, g, h) && DigitBits(i, j, k, m)
    ensures EncodeBits(a, b, c, d, e, f, g, h, i, j, k, m) < 1024
    ensures DpdToInt(EncodeBits(a, b, c, d, e, f, g, h, i, j, k, m))
         == Some(100 * (8 * a + 4 * b + 2 * c + d) + 10 * (8 * e + 4 * f + 2 * g + h) + (8 * i + 4 * j + 2 * k + m))
  {
    hide DpdToInt, Bit, Declet;
    match (a == 1, e == 1, i == 1) {
      case (false, false, false) => BitsOfDeclet(b, c, d, f, g, h, 0, j, k, m);
      case (false, false, true)  => BitsOfDeclet(b, c, d, f, g, h, 1, 0, 0, m);
      case (false, true, false)  => BitsOfDeclet(b, c, d, j, k, h, 1, 0, 1, m);
      case (true, false, false)  => BitsOfDeclet(j, k, d, f, g, h, 1, 1, 0, m);
      case (true, true, false)   => BitsOfDeclet(j, k, d, 0, 0, h, 1, 1, 1, m);
      case (true, false, true)   => BitsOfDeclet(f, g, d, 0, 1, h, 1, 1, 1, m);
      case (false, true, true)   => BitsOfDeclet(b, c, d, 1, 0, h, 1, 1, 1, m);
      case (true, true, true)    => BitsOfDeclet(0, 0, d, 1, 1, h, 1, 1, 1, m);
    }
  }

  lemma DigitsRoundTrip(x: nat, y: nat, z: nat)
    requires x < 10 && y < 10 && z < 10
    ensures var dpd := EncodeBits(x / 8, x / 4 % 2, x / 2 % 2, x % 2,
                                  y / 8, y / 4 % 2, y / 2 % 2, y % 2,
                                  z / 8, z / 4 % 2, z / 2 % 2, z % 2);
            dpd < 1024 && DpdToInt(dpd) == Some(100 * x + 10 * y + z)
  {
    hide *;
    BitsOfDigit(x);
    BitsOfDigit(y);
    BitsOfDigit(z);
    BitsRoundTrip(x / 8, x / 4 % 2, x / 2 % 2, x % 2,
                  y / 8, y / 4 % 2, y / 2 % 2, y % 2,
                  z / 8, z / 4 % 2, z / 2 % 2, z % 2);
  }

  /** Every group of three digits survives the standard's encoding and the driver's decoding. */
  lemma DecletRoundTrip(n: nat)
    requires n < 1000
    ensures EncodeDeclet(n) < 1024 && DpdToInt(EncodeDeclet(n)) == Some(n)
  {
    hide DpdToInt, EncodeBits;
    var x, y, z := n / 100, n / 10 % 10, n % 10;
    assert n == 100 * x + 10 * y + z;
    DigitsRoundTrip(x, y, z);
  }

  /** The invalid-encoding branch is unreachable: any bits decode to three digits. */
  lemma EveryDecletDecodes(dpd: nat)
    ensures DpdToInt(dpd).Some? && DpdToInt(dpd).value < 1000
  {
  }

  // --- significands -----------------------------------------------------

  /** The digits of the low `k` declets of `bits` behind the digits of `prefix`. */
  function Significand(prefix: nat, bits: nat, k: nat): Option<nat> {
    if k == 0 then Some(prefix)
    else
      match (Significand(prefix, bits / 1024, k - 1), DpdToInt(bits % 1024))
      case (Some(v), Some(n)) => Some(v * 1000 + n)
      case _ => None
  }

  /** `bits` with its low `i` declets dropped. */
  function Dropped(bits: nat, i: nat): nat {
    if i == 0 then bits else Dropped(bits, i - 1) / 1024
  }

  method CalcSignificand(prefix: nat, dpdBits: nat, numBits: nat) returns (r: Option<nat>)
    ensures r == Significand(prefix, dpdBits, numBits / 10)
  {
    hide DpdToInt;
    var numSegments := numBits / 10;
    var segments := new nat[numSegments](_ => 0);
    var left := dpdBits;
    for i := 0 to numSegments
      invariant left == Dropped(dpdBits, i)
      invariant forall j | numSegments - i <= j < numSegments ::
        segments[j] == Dropped(dpdBits, numSegments - 1 - j) % 1024
    {
      segments[numSegments - i - 1] := left % 1024;
      left := left / 1024;
    }
    var v := prefix;
    for i := 0 to numSegments
      invariant forall j | 0 <= j < numSegments :: segments[j] == Dropped(dpdBits, numSegments - 1 - j) % 1024
      invariant Some(v) == Significand(prefix, Dropped(dpdBits, numSegments - i), i)
    {
      EveryDecletDecodes(segments[i]);
      match DpdToInt(segments[i]) {
        case None => return None;
        case Some(n) =>
          assert Dropped(dpdBits, numSegments - i) == Dropped(dpdBits, numSegments - i - 1) / 1024;
          v := v * 1000;
          v := v + n;
      }
    }
    r := Some(v);
  }

  /** The standard's trailing significand: the low `k` groups of three digits as declets. */
  function EncodeTail(c: nat, k: nat): nat {
    if k == 0 then 0 else EncodeTail(c / 1000, k - 1) * 1024 + EncodeDeclet(c % 1000)
  }

  lemma {:induction false} TailBound(c: nat, k: nat)
    ensures EncodeTail(c, k) < Pow(1024, k)
    decreases k
  {
    if k == 0 {
      NoTail(c);
    } else {
      hide *;
      DecletRoundTrip(c % 1000);
      TailBound(c / 1000, k - 1);
      TailStep(c, k);
    }
  }

  lemma NoTail(c: nat)
    ensures EncodeTail(c, 0) < Pow(1024, 0)
  {
  }

  lemma TailStep(c: nat, k: nat)
    requires k > 0 && EncodeTail(c / 1000, k - 1) < Pow(1024, k - 1) && EncodeDeclet(c % 1000) < 1024
    ensures EncodeTail(c, k) < Pow(1024, k)
  {
    hide EncodeDeclet;
  }

  /** `prefix` with the low 3k digits of `c` behind it. */
  function Appended(prefix: nat, c: nat, k: nat): nat {
    if k == 0 then prefix else Appended(prefix, c / 1000, k - 1) * 1000 + c % 1000
  }

  lemma {:induction false} AppendedValue(prefix: nat, c: nat, k: nat)
    requires c < Pow(1000, k)
    ensures Appended(prefix, c, k) == prefix * Pow(1000, k) + c
  {
    if k > 0 {
      var m := Pow(1000, k - 1);
      assert Pow(1000, k) == 1000 * m;
      AppendedValue(prefix, c / 1000, k - 1);
      ThreeMoreDigits(prefix, m, c);
    }
  }

  lemma {:induction false} SignificandAppends(prefix: nat, c: nat, k: nat)
    ensures Significand(prefix, EncodeTail(c, k), k) == Some(Appended(prefix, c, k))
  {
    hide DpdToInt, EncodeDeclet;
    if k > 0 {
      assert Appended(prefix, c, k) == Appended(prefix, c / 1000, k - 1) * 1000 + c % 1000;
      hide *;
      SignificandStep(prefix, c, k);
      SignificandAppends(prefix, c / 1000, k - 1);
    }
  }

  /** For any number of declets, decoding the encoded tail behind a prefix restores all the
      digits. */
  lemma SignificandRoundTrip(prefix: nat, c: nat, k: nat)
    requires c < Pow(1000, k)
    ensures Significand(prefix, EncodeTail(c, k), k) == Some(prefix * Pow(1000, k) + c)
  {
    hide *;
    SignificandAppends(prefix, c, k);
    AppendedValue(prefix, c, k);
  }

  /** The last declet of an encoded tail decodes to the last three digits. */
  lemma SignificandStep(prefix: nat, c: nat, k: nat)
    requires k > 0
    ensures Significand(prefix, EncodeTail(c, k), k)
         == match Significand(prefix, EncodeTail(c / 1000, k - 1), k - 1)
            case None => None
            case Some(v) => Some(v * 1000 + c % 1000)
  {
    hide DpdToInt, EncodeDeclet;
    var t := EncodeTail(c, k);
    assert t == EncodeTail(c / 1000, k - 1) * 1024 + EncodeDeclet(c % 1000);
    hide EncodeTail;
    DecletRoundTrip(c % 1000);
    RemainderIs(t, 1024, EncodeTail(c / 1000, k - 1), EncodeDeclet(c % 1000));
  }

  lemma ThreeMoreDigits(prefix: nat, m: nat, c: nat)
    ensures (prefix * m + c / 1000) * 1000 + c % 1000 == prefix * (1000 * m) + c
  {
    Associate(prefix, m, 1000);
  }

  lemma {:induction false} SignificandTotal(prefix: nat, bits: nat, k: nat)
    ensures Significand(prefix, bits, k).Some?
  {
    if k > 0 {
      SignificandTotal(prefix, bits / 1024, k - 1);
      EveryDecletDecodes(bits % 1024);
    }
  }

  // --- the two formats --------------------------------------------------

  /** What the combination field says: a special value, or the two leading exponent bits
      and the leading digit; None is the driver's error branch. */
  datatype Combination = NaN | Infinity | Leading(exponent: nat, digit: nat) | Invalid

  /** The 128-bit decoder's reading of its 17-bit field (combination and exponent). */
  function Combination128(cf: nat): Combination {
    if cf / 0x1000 % 32 == 0x1f then NaN
    else if cf / 0x1000 % 32 == 0x1e then Infinity
    else if cf / 0x8000 % 4 == 0 then Leading(cf % 0x1000, cf / 0x1000 % 8)
    else if cf / 0x8000 % 4 == 1 then Leading(0x1000 + cf % 0x1000, cf / 0x1000 % 8)
    else if cf / 0x8000 % 4 == 2 then Leading(0x2000 + cf % 0x1000, cf / 0x1000 % 8)
    else if cf / 0x2000 % 16 == 0xc then Leading(cf % 0x1000, 8 + cf / 0x1000 % 2)
    else if cf / 0x2000 % 16 == 0xd then Leading(0x1000 + cf % 0x1000, 8 + cf / 0x1000 % 2)
    else if cf / 0x2000 % 16 == 0xe then Leading(0x2000 + cf % 0x1000, 8 + cf / 0x1000 % 2)
    else Invalid
  }

  /** The 64-bit decoder's reading of its 5-bit field, with the exponent's low bits. */
  function Combination64(cf: nat, exponent: nat): Combination {
    if cf == 0x1f then NaN
    else if cf == 0x1e then Infinity
    else if cf / 8 % 4 == 0 then Leading(exponent, cf % 8)
    else if cf / 8 % 4 == 1 then Leading(0x100 + exponent, cf % 8)
    else if cf / 8 % 4 == 2 then Leading(0x200 + exponent, cf % 8)
    else if cf / 2 % 16 == 0xc then Leading(exponent, 8 + cf % 2)
    else if cf / 2 % 16 == 0xd then Leading(0x100 + exponent, 8 + cf % 2)
    else if cf / 2 % 16 == 0xe then Leading(0x200 + exponent, 8 + cf % 2)
    else Invalid
  }

  /** The 17 bits below the sign bit. */
  function Field128(b: seq<byte>): (cf: nat)
    requires |b| == 16
    ensures cf < 0x2_0000
  {
    var b0: int, b1: int, b2: int := b[0], b[1], b[2];
    b0 % 0x80 * 0x400 + b1 * 4 + b2 / 0x40
  }

  /** The five combination bits, and the eight exponent bits behind them. */
  function Field64(b: seq<byte>): (cf: nat)
    requires |b| == 8
    ensures cf < 32
  {
    b[0] / 4 % 32
  }

  function Low64(b: seq<byte>): nat
    requires |b| == 8
  {
    var b0: int, b1: int := b[0], b[1];
    b0 % 4 * 0x40 + b1 / 4
  }

  /** Sign, digits and exponent of a 16-byte value; None is the error result. */
  function Decode128(b: seq<byte>): Option<Numeric>
    requires |b| == 16
  {
    var negative := b[0] >= 0x80;
    match Combination128(Field128(b))
    case NaN => Some(Special(negative, "NaN"))
    case Infinity => Some(Special(negative, "Infinity"))
    case Invalid => None
    case Leading(exponent, prefix) =>
      match Significand(prefix, Big(b) % TAIL128, 11)
      case None => None
      case Some(coefficient) => Some(Number(negative, coefficient, exponent - 6176))
  }

  function Decode64(b: seq<byte>): Option<Numeric>
    requires |b| == 8
  {
    var negative := b[0] >= 0x80;
    match Combination64(Field64(b), Low64(b))
    case NaN => Some(Special(negative, "NaN"))
    case Infinity => Some(Special(negative, "Infinity"))
    case Invalid => None
    case Leading(exponent, prefix) =>
      match Significand(prefix, Big(b) % TAIL64, 5)
      case None => None
      case Some(coefficient) => Some(Number(negative, coefficient, exponent - 398))
  }

  function Text(v: Option<Numeric>): Option<string> {
    match v
    case None => None
    case Some(n) => Some(FormatDecimalGDA(n))
  }

  function Decimal128ToString(b: seq<byte>): Option<string>
    requires |b| == 16
  {
    Text(Decode128(b))
  }

  function Decimal64ToString(b: seq<byte>): Option<string>
    requires |b| == 8
  {
    Text(Decode64(b))
  }

  /** DECFIXED: the coefficient of a 16-byte value under the column's own scale. */
  function DecimalFixedToString(b: seq<byte>, scale: int): Option<string>
    requires |b| == 16
  {
    match Decode128(b)
    case Some(Number(negative, coefficient, _)) => Text(Some(Number(negative, coefficient, scale)))
    case v => Text(v)
  }

  // --- the standard's encoding ------------------------------------------

  /** The five combination bits: exponent top bits and leading digit, or 11110 and 11111. */
  function CombinationBits(top: nat, digit: nat): (g: nat)
    requires top < 3 && digit < 10
    ensures g < 0x1e
  {
    if digit < 8 then 8 * top + digit else 24 + 2 * top + (digit - 8)
  }

  /** The 16 bytes of sign, combination field, `e` (12 bits) and trailing significand `t`. */
  function Layout128(negative: bool, g: nat, e: nat, t: nat): (b: seq<byte>)
    requires g < 32 && e < 0x1000 && t < TAIL128
    ensures |b| == 16
  {
    var sign := if negative then 0x80 else 0;
    [sign + g * 4 + e / 0x400, e / 4 % 0x100, e % 4 * 0x40 + t / WHOLE128]
    + FixedBytes(t % WHOLE128, 13)
  }

  lemma PowersOfTwo()
    ensures Pow(256, 6) == WHOLE64 && Pow(256, 13) == WHOLE128
    ensures Pow(1024, 5) == TAIL64 && Pow(1024, 11) == TAIL128
  {
    assert Pow(256, 3) == 0x100_0000;
    PowAdd(256, 3, 3);
    PowAdd(256, 6, 6);
    PowAdd(256, 12, 1);
    assert Pow(1024, 2) == 0x10_0000 && Pow(1024, 1) == 1024 && Pow(256, 1) == 256;
    PowAdd(1024, 2, 2);
    PowAdd(1024, 4, 1);
    PowAdd(1024, 5, 5);
    PowAdd(1024, 10, 1);
  }

  /** The 8 bytes of sign, combination field, `e` (8 bits) and trailing significand `t`. */
  function Layout64(negative: bool, g: nat, e: nat, t: nat): (b: seq<byte>)
    requires g < 32 && e < 0x100 && t < TAIL64
    ensures |b| == 8
  {
    var sign := if negative then 0x80 else 0;
    [sign + g * 4 + e / 0x40, e % 0x40 * 4 + t / WHOLE64] + FixedBytes(t % WHOLE64, 6)
  }

  /** `c` has at most 3k + 1 digits. */
  predicate FitsDigits(c: nat, k: nat) {
    c < 10 * Pow(1000, k)
  }

  lemma Limits(c: nat)
    ensures FitsDigits(c, 5) <==> c < LIMIT64
    ensures FitsDigits(c, 11) <==> c < LIMIT128
  {
    assert Pow(1000, 1) == 1000 && Pow(1000, 2) == 1_000_000 && Pow(1000, 3) == 1_000_000_000;
    PowAdd(1000, 3, 2);
    PowAdd(1000, 3, 3);
    PowAdd(1000, 6, 5);
  }

  /** The leading digit and the trailing significand of a coefficient of 3k + 1 digits. */
  function Split(c: nat, k: nat): (nat, nat) {
    PowPositive(1000, k);
    var parts := Divided(c, Pow(1000, k));
    (parts.0, EncodeTail(parts.1, k))
  }

  function Divided(c: nat, m: nat): (nat, nat)
    requires m > 0
  {
    (c / m, c % m)
  }

  lemma SplitBounds(c: nat, k: nat)
    requires FitsDigits(c, k)
    ensures Split(c, k).0 < 10 && Split(c, k).1 < Pow(1024, k)
  {
    hide EncodeTail;
    PowPositive(1000, k);
    TailBound(c % Pow(1000, k), k);
    LeadingDigit(c, Pow(1000, k));
  }

  lemma SplitBounds128(c: nat)
    requires c < LIMIT128
    ensures Split(c, 11).0 < 10 && Split(c, 11).1 < TAIL128
  {
    hide *;
    Limits(c);
    PowersOfTwo();
    SplitBounds(c, 11);
  }

  lemma SplitBounds64(c: nat)
    requires c < LIMIT64
    ensures Split(c, 5).0 < 10 && Split(c, 5).1 < TAIL64
  {
    hide *;
    Limits(c);
    PowersOfTwo();
    SplitBounds(c, 5);
  }

  lemma {:induction false} PowPositive(b: nat, e: nat)
    requires b > 0
    ensures Pow(b, e) > 0
  {
    if e > 0 {
      PowPositive(b, e - 1);
    }
  }

  lemma LeadingDigit(c: nat, m: nat)
    requires m > 0 && c < 10 * m
    ensures c / m < 10
  {
  }

  /** The standard's decimal128 encoding of a sign, a biased exponent and a coefficient of
      at most 34 digits. */
  function Encode128(negative: bool, biased: nat, c: nat): (b: seq<byte>)
    requires biased < 3 * 0x1000 && c < LIMIT128
    ensures |b| == 16
  {
    SplitBounds128(c);
    var (digit, tail) := Split(c, 11);
    Layout128(negative, CombinationBits(biased / 0x1000, digit), biased % 0x1000, tail)
  }

  /** The decimal64 encoding: at most 16 digits. */
  function Encode64(negative: bool, biased: nat, c: nat): (b: seq<byte>)
    requires biased < 3 * 0x100 && c < LIMIT64
    ensures |b| == 8
  {
    SplitBounds64(c);
    var (digit, tail) := Split(c, 5);
    Layout64(negative, CombinationBits(biased / 0x100, digit), biased % 0x100, tail)
  }

  lemma SplitRoundTrip(c: nat, k: nat)
    requires FitsDigits(c, k)
    ensures Significand(Split(c, k).0, Split(c, k).1, k) == Some(c)
  {
    PowPositive(1000, k);
    var m := Pow(1000, k);
    Recompose(c, m);
    assert Split(c, k) == (c / m, EncodeTail(c % m, k));
    hide *;
    SignificandRoundTrip(c / m, c % m, k);
  }

  lemma Recompose(c: nat, m: nat)
    requires m > 0
    ensures c / m * m + c % m == c && c % m < m
  {
  }

  // --- decoding undoes the encoding -------------------------------------

  /** The bytes below the first ones hold the low bits of the significand. */
  lemma LowBits(head: nat, high: nat, low: nat, unit: nat, top: nat)
    requires unit > 0 && top > 0 && high < top && low < unit
    ensures ((head * top + high) * unit + low) % (top * unit) == high * unit + low
  {
    assert (head * top + high) * unit + low == (top * unit) * head + (high * unit + low) by {
      assert (head * top + high) * unit == head * top * unit + high * unit;
      assert head * top * unit == (top * unit) * head;
    }
    assert high * unit + low < top * unit by {
      assert (high + 1) * unit <= top * unit;
      assert (high + 1) * unit == high * unit + unit;
    }
    RemainderIs((head * top + high) * unit + low, top * unit, head, high * unit + low);
  }

  lemma Layout128Fields(negative: bool, g: nat, e: nat, t: nat)
    requires g < 32 && e < 0x1000 && t < TAIL128
    ensures var b := Layout128(negative, g, e, t);
            (b[0] >= 0x80 <==> negative) && Field128(b) == g * 0x1000 + e
  {
    var b := Layout128(negative, g, e, t);
    var sign := if negative then 0x80 else 0;
    var high := t / WHOLE128;
    assert b[0] == sign + g * 4 + e / 0x400 && b[1] == e / 4 % 0x100 && b[2] == e % 4 * 0x40 + high;
    hide Layout128;
    assert e == 0x400 * (e / 0x400) + 4 * (e / 4 % 0x100) + e % 4;
    assert (e % 4 * 0x40 + high) / 0x40 == e % 4;
    assert (sign + g * 4 + e / 0x400) % 0x80 == g * 4 + e / 0x400;
  }

  lemma Layout64Fields(negative: bool, g: nat, e: nat, t: nat)
    requires g < 32 && e < 0x100 && t < TAIL64
    ensures var b := Layout64(negative, g, e, t);
            (b[0] >= 0x80 <==> negative) && Field64(b) == g && Low64(b) == e
  {
    var b := Layout64(negative, g, e, t);
    var sign := if negative then 0x80 else 0;
    var high := t / WHOLE64;
    assert high < 4;
    assert b[0] == sign + g * 4 + e / 0x40 && b[1] == e % 0x40 * 4 + high;
    hide Layout64;
    assert (sign + g * 4 + e / 0x40) / 4 == sign / 4 + g;
    assert (e % 0x40 * 4 + high) / 4 == e % 0x40;
  }

  /** Masking the whole number leaves exactly the trailing significand. */
  lemma MaskedBytes(head: seq<byte>, t: nat, k: nat, unit: nat, top: nat)
    requires head != [] && unit == Pow(256, k) && unit > 0 && (top == 4 || top == 0x40)
    requires head[|head| - 1] % top == t / unit && t < top * unit
    ensures Big(head + FixedBytes(t % unit, k)) % (top * unit) == t
  {
    var b := head + FixedBytes(t % unit, k);
    BigConcat(head, FixedBytes(t % unit, k));
    FixedBytesValue(t % unit, k);
    RemainderIs(t % unit, unit, 0, t % unit);
    var front, last := Big(head[..|head| - 1]), head[|head| - 1];
    assert Big(b) == (front * 256 + last) * unit + t % unit;
    MaskedValue(front, last, t, unit, top);
  }

  lemma MaskedValue(front: nat, last: nat, t: nat, unit: nat, top: nat)
    requires unit > 0 && (top == 4 || top == 0x40)
    requires last % top == t / unit && t < top * unit
    ensures ((front * 256 + last) * unit + t % unit) % (top * unit) == t
  {
    Recompose(t, unit);
    if top == 4 {
      assert front * 256 + last == (64 * front + last / 4) * 4 + t / unit;
      LowBits(64 * front + last / 4, t / unit, t % unit, unit, 4);
    } else {
      assert front * 256 + last == (4 * front + last / 0x40) * 0x40 + t / unit;
      LowBits(4 * front + last / 0x40, t / unit, t % unit, unit, 0x40);
    }
  }

  lemma Layout128Tail(negative: bool, g: nat, e: nat, t: nat)
    requires g < 32 && e < 0x1000 && t < TAIL128
    ensures Big(Layout128(negative, g, e, t)) % TAIL128 == t
  {
    PowersOfTwo();
    var unit := WHOLE128;
    var b := Layout128(negative, g, e, t);
    var head := [b[0], b[1], b[2]];
    assert b == head + FixedBytes(t % unit, 13);
    assert head[2] == e % 4 * 0x40 + t / unit;
    MaskedBytes(head, t, 13, unit, 0x40);
  }

  lemma Layout64Tail(negative: bool, g: nat, e: nat, t: nat)
    requires g < 32 && e < 0x100 && t < TAIL64
    ensures Big(Layout64(negative, g, e, t)) % TAIL64 == t
  {
    PowersOfTwo();
    var unit := WHOLE64;
    var b := Layout64(negative, g, e, t);
    var head := [b[0], b[1]];
    assert b == head + FixedBytes(t % unit, 6);
    assert head[1] == e % 0x40 * 4 + t / unit;
    MaskedBytes(head, t, 6, unit, 4);
  }

  lemma CombinationReads128(top: nat, digit: nat, e: nat)
    requires top < 3 && digit < 10 && e < 0x1000
    ensures Combination128(CombinationBits(top, digit) * 0x1000 + e) == Leading(top * 0x1000 + e, digit)
  {
    BitsOf(top, digit);
    FieldReads(CombinationBits(top, digit), e);
    hide CombinationBits, Combination128;
  }

  lemma FieldReads(g: nat, e: nat)
    requires g < 0x1e && e < 0x1000
    ensures Combination128(g * 0x1000 + e) == if g < 24 then Leading(g / 8 * 0x1000 + e, g % 8)
                                              else Leading((g / 2 - 12) * 0x1000 + e, 8 + g % 2)
  {
    FieldParts(g, e);
    SmallFields(g);
  }

  lemma SmallFields(g: nat)
    requires g < 0x1e
    ensures g % 32 == g && g / 8 % 4 == g / 8 && g / 2 % 16 == g / 2
    ensures g < 24 <==> g / 8 < 3
    ensures g >= 24 ==> 12 <= g / 2 < 15
  {
  }

  lemma FieldParts(g: nat, e: nat)
    requires g < 0x1e && e < 0x1000
    ensures var cf := g * 0x1000 + e;
            cf / 0x1000 == g && cf % 0x1000 == e && cf / 0x8000 == g / 8 && cf / 0x2000 == g / 2
  {
  }

  lemma BitsOf(top: nat, digit: nat)
    requires top < 3 && digit < 10
    ensures var g := CombinationBits(top, digit);
            if digit < 8 then g < 24 && g / 8 == top && g % 8 == digit
            else g >= 24 && g / 2 == 12 + top && g % 2 == digit - 8
  {
  }

  lemma CombinationReads64(top: nat, digit: nat, e: nat)
    requires top < 3 && digit < 10 && e < 0x100
    ensures Combination64(CombinationBits(top, digit), e) == Leading(top * 0x100 + e, digit)
  {
  }

  /** The error branch of either combination field cannot be taken. */
  lemma CombinationsAreTotal(cf: nat, e: nat)
    requires cf < 0x2_0000
    ensures Combination128(cf) != Invalid
    ensures cf < 32 ==> Combination64(cf, e) != Invalid
  {
    var g := cf / 0x1000;
    assert cf / 0x8000 == g / 8 && cf / 0x2000 == g / 2;
  }

  lemma Encoded128(negative: bool, biased: nat, c: nat)
    requires biased < 3 * 0x1000 && c < LIMIT128
    ensures var (digit, tail) := Split(c, 11);
            digit < 10 && tail < TAIL128
            && Encode128(negative, biased, c)
            == Layout128(negative, CombinationBits(biased / 0x1000, digit), biased % 0x1000, tail)
  {
    SplitBounds128(c);
    hide Split, Layout128, CombinationBits;
  }

  lemma Decoded128(b: seq<byte>, tail: nat, exponent: nat, digit: nat, c: nat)
    requires |b| == 16 && Combination128(Field128(b)) == Leading(exponent, digit)
    requires Big(b) % TAIL128 == tail && Significand(digit, tail, 11) == Some(c)
    ensures Decode128(b) == Some(Number(b[0] >= 0x80, c, exponent - 6176))
  {
    hide Combination128, Field128, Big, Significand;
  }

  lemma Encoded64(negative: bool, biased: nat, c: nat)
    requires biased < 3 * 0x100 && c < LIMIT64
    ensures var (digit, tail) := Split(c, 5);
            digit < 10 && tail < TAIL64
            && Encode64(negative, biased, c)
            == Layout64(negative, CombinationBits(biased / 0x100, digit), biased % 0x100, tail)
  {
    SplitBounds64(c);
    hide Split, Layout64, CombinationBits;
  }

  lemma Decoded64(b: seq<byte>, tail: nat, exponent: nat, digit: nat, c: nat)
    requires |b| == 8 && Combination64(Field64(b), Low64(b)) == Leading(exponent, digit)
    requires Big(b) % TAIL64 == tail && Significand(digit, tail, 5) == Some(c)
    ensures Decode64(b) == Some(Number(b[0] >= 0x80, c, exponent - 398))
  {
    hide Combination64, Field64, Low64, Big, Significand;
  }

  /** Decoding the standard's decimal128 encoding gives the same sign, coefficient and
      exponent, for every value of the format. */
  lemma Decimal128RoundTrip(negative: bool, biased: nat, c: nat)
    requires biased < 3 * 0x1000 && c < LIMIT128
    ensures Decode128(Encode128(negative, biased, c)) == Some(Number(negative, c, biased - 6176))
  {
    hide *;
    Encoded128(negative, biased, c);
    Limits(c);
    var (digit, tail) := Split(c, 11);
    var top, e := biased / 0x1000, biased % 0x1000;
    var g := CombinationBits(top, digit);
    var b := Layout128(negative, g, e, tail);
    assert top * 0x1000 + e == biased;
    Layout128Fields(negative, g, e, tail);
    Layout128Tail(negative, g, e, tail);
    CombinationReads128(top, digit, e);
    SplitRoundTrip(c, 11);
    Decoded128(b, tail, biased, digit, c);
  }

  lemma Decimal64RoundTrip(negative: bool, biased: nat, c: nat)
    requires biased < 3 * 0x100 && c < LIMIT64
    ensures Decode64(Encode64(negative, biased, c)) == Some(Number(negative, c, biased - 398))
  {
    hide *;
    Encoded64(negative, biased, c);
    Limits(c);
    var (digit, tail) := Split(c, 5);
    var top, e := biased / 0x100, biased % 0x100;
    var g := CombinationBits(top, digit);
    var b := Layout64(negative, g, e, tail);
    assert top * 0x100 + e == biased;
    Layout64Fields(negative, g, e, tail);
    Layout64Tail(negative, g, e, tail);
    CombinationReads64(top, digit, e);
    SplitRoundTrip(c, 5);
    Decoded64(b, tail, biased, digit, c);
  }

  /** The special values: combination bits 11110 and 11111, whatever the rest holds. */
  lemma SpecialsDecode128(b: seq<byte>)
    requires |b| == 16
    ensures Field128(b) / 0x1000 == 0x1e ==> Decode128(b) == Some(Special(b[0] >= 0x80, "Infinity"))
    ensures Field128(b) / 0x1000 == 0x1f ==> Decode128(b) == Some(Special(b[0] >= 0x80, "NaN"))
  {
    hide Field128, Significand, Big;
  }

  lemma SpecialsDecode64(b: seq<byte>)
    requires |b| == 8
    ensures Field64(b) == 0x1e ==> Decode64(b) == Some(Special(b[0] >= 0x80, "Infinity"))
    ensures Field64(b) == 0x1f ==> Decode64(b) == Some(Special(b[0] >= 0x80, "NaN"))
  {
    hide Field64, Low64, Significand, Big;
  }

  /** The text of a special value is its name behind its sign, in every width. */
  lemma SpecialsText(b: seq<byte>, scale: int)
    ensures |b| == 16 && Field128(b) / 0x1000 == 0x1e ==>
              var text := (if b[0] >= 0x80 then "-" else "") + "Infinity";
              Decimal128ToString(b) == DecimalFixedToString(b, scale) == Some(text)
    ensures |b| == 16 && Field128(b) / 0x1000 == 0x1f ==>
              var text := (if b[0] >= 0x80 then "-" else "") + "NaN";
              Decimal128ToString(b) == DecimalFixedToString(b, scale) == Some(text)
    ensures |b| == 8 && Field64(b) == 0x1e ==>
              Decimal64ToString(b) == Some((if b[0] >= 0x80 then "-" else "") + "Infinity")
    ensures |b| == 8 && Field64(b) == 0x1f ==>
              Decimal64ToString(b) == Some((if b[0] >= 0x80 then "-" else "") + "NaN")
  {
    hide Field128, Field64, Decode128, Decode64;
    if |b| == 16 {
      SpecialsDecode128(b);
    } else if |b| == 8 {
      SpecialsDecode64(b);
    }
    assert "" + "Infinity" == "Infinity" && "" + "NaN" == "NaN";
  }

  /** No 16 or 8 bytes make the decoders fail. */
  lemma DecodersAreTotal(b: seq<byte>)
    ensures |b| == 16 ==> Decode128(b).Some?
    ensures |b| == 8 ==> Decode64(b).Some?
  {
    hide Combination128, Combination64, Field128, Field64, Low64, Significand, Big;
    if |b| == 16 {
      CombinationsAreTotal(Field128(b), 0);
      if Combination128(Field128(b)).Leading? {
        SignificandTotal(Combination128(Field128(b)).digit, Big(b) % TAIL128, 11);
      }
    } else if |b| == 8 {
      CombinationsAreTotal(Field64(b), Low64(b));
      var leading := Combination64(Field64(b), Low64(b));
      if leading.Leading? {
        SignificandTotal(leading.digit, Big(b) % TAIL64, 5);
      }
    }
  }

  lemma OneMoreDigit(c: nat)
    ensures |Digits(c)| <= |Digits(c / 10)| + 1
  {
  }

  lemma {:induction false} DigitCount(c: nat, k: nat)
    requires FitsDigits(c, k)
    ensures 1 <= |Digits(c)| <= 3 * k + 1
  {
    if k == 0 {
      assert Pow(1000, 0) == 1;
    } else {
      assert Pow(1000, k) == 1000 * Pow(1000, k - 1);
      DigitCount(c / 1000, k - 1);
      hide Digits, FitsDigits;
      OneMoreDigit(c);
      OneMoreDigit(c / 10);
      OneMoreDigit(c / 10 / 10);
      assert c / 10 / 10 / 10 == c / 1000;
    }
  }

  /** End to end: the text the driver returns for an encoded decimal reads back, as a numeric
      string, to the very number encoded. */
  lemma TextOfEncoding(negative: bool, biased: nat, c: nat)
    ensures biased < 3 * 0x1000 && c < LIMIT128 ==>
              var s := Decimal128ToString(Encode128(negative, biased, c));
              s.Some? && ReadNumeric(s.value) == Some(Number(negative, c, biased - 6176))
    ensures biased < 3 * 0x100 && c < LIMIT64 ==>
              var s := Decimal64ToString(Encode64(negative, biased, c));
              s.Some? && ReadNumeric(s.value) == Some(Number(negative, c, biased - 398))
  {
    hide Encode128, Encode64, Decode128, Decode64, FormatDecimalGDA, ReadNumeric, Pow;
    Limits(c);
    if biased < 3 * 0x1000 && c < LIMIT128 {
      Decimal128RoundTrip(negative, biased, c);
      DigitCount(c, 11);
      PrintedReadsBack(Number(negative, c, biased - 6176));
    }
    if biased < 3 * 0x100 && c < LIMIT64 {
      Decimal64RoundTrip(negative, biased, c);
      DigitCount(c, 5);
      PrintedReadsBack(Number(negative, c, biased - 398));
    }
  }

  /** A DECFIXED value is printed under the column's scale instead of its own exponent: its
      text reads back as the encoded sign and coefficient with that scale, exactly when the
      scale leaves the number printable. */
  lemma FixedTextReadsBack(negative: bool, biased: nat, c: nat, scale: int)
    requires biased < 3 * 0x1000 && c < LIMIT128 && FitsInt32(scale)
    ensures var v := Number(negative, c, scale);
            var s := DecimalFixedToString(Encode128(negative, biased, c), scale);
            s.Some? && (ReadNumeric(s.value) == Some(v) <==> Printable(v))
  {
    hide Encode128, Decode128, FormatDecimalGDA, ReadNumeric, Pow, Digits, Printable;
    Limits(c);
    Decimal128RoundTrip(negative, biased, c);
    DigitCount(c, 11);
    PrinterIsExact(Number(negative, c, scale));
  }

  // --- a known value --------------------------------------------------------------

  /** The eight bytes A2 30 00 00 00 00 03 D0 hold -7.50. */
  lemma KnownDecimal()
    ensures Decimal64ToString([0xa2, 0x30, 0, 0, 0, 0, 0x03, 0xd0]) == Some("-7.50")
  {
    hide Decode64, FormatDecimalGDA;
    KnownNumber();
    KnownText();
  }

  lemma KnownNumber()
    ensures Decode64([0xa2, 0x30, 0, 0, 0, 0, 0x03, 0xd0]) == Some(Number(true, 750, -2))
  {
    hide Significand, Big, DpdToInt;
    var b: seq<byte> := [0xa2, 0x30, 0, 0, 0, 0, 0x03, 0xd0];
    KnownBits();
    KnownDigits(0x3d0, 5);
    assert b[0] == 0xa2 && b[1] == 0x30;
    assert Field64(b) == 8 && Low64(b) == 140;
  }

  lemma KnownBits()
    ensures Big([0xa2, 0x30, 0, 0, 0, 0, 0x03, 0xd0]) % 0x4_0000_0000_0000 == 0x3d0
  {
    hide *;
    var high: seq<byte>, low: seq<byte> := [0xa2, 0x30, 0, 0], [0, 0, 0x03, 0xd0];
    assert high + low == [0xa2, 0x30, 0, 0, 0, 0, 0x03, 0xd0];
    BigConcat(high, low);
    KnownWords(high, low);
  }

  lemma KnownWords(high: seq<byte>, low: seq<byte>)
    requires high == [0xa2, 0x30, 0, 0] && low == [0, 0, 0x03, 0xd0]
    ensures Big(high) == 0xa230_0000 && Big(low) == 0x3d0
    ensures Pow(256, |low|) == 0x1_0000_0000
  {
    hide Big;
    BigOfFour(high);
    BigOfFour(low);
    assert Pow(256, 2) == 256 * Pow(256, 1) && Pow(256, 1) == 256 * Pow(256, 0);
    assert Pow(256, 4) == 256 * Pow(256, 3) && Pow(256, 3) == 256 * Pow(256, 2);
  }

  lemma KnownDigits(bits: nat, k: nat)
    requires bits == 0x3d0 && k > 0
    ensures Significand(0, bits, k) == Some(750)
  {
    hide DpdToInt;
    NoDigits(bits / 1024, k - 1);
    KnownDeclet(bits % 1024);
  }

  lemma {:induction false} NoDigits(bits: nat, k: nat)
    requires bits == 0
    ensures Significand(0, bits, k) == Some(0)
    decreases k
  {
    hide DpdToInt;
    if k > 0 {
      NoDigits(bits / 1024, k - 1);
      NoDeclet(bits % 1024);
    }
  }

  lemma KnownDeclet(dpd: nat)
    requires dpd == 0x3d0
    ensures DpdToInt(dpd) == Some(750)
  {
    hide DigitsOfBits;
    assert DpdToInt(dpd) == DigitsOfBits(1, 1, 1, 1, 0, 1, 0, 0, 0, 0);
    DecletDigits();
  }

  lemma NoDeclet(dpd: nat)
    requires dpd == 0
    ensures DpdToInt(dpd) == Some(0)
  {
    hide DigitsOfBits;
    assert DpdToInt(dpd) == DigitsOfBits(0, 0, 0, 0, 0, 0, 0, 0, 0, 0);
    DecletDigits();
  }

  lemma DecletDigits()
    ensures DigitsOfBits(1, 1, 1, 1, 0, 1, 0, 0, 0, 0) == Some(750)
    ensures DigitsOfBits(0, 0, 0, 0, 0, 0, 0, 0, 0, 0) == Some(0)
  {
  }

  lemma KnownText()
    ensures FormatDecimalGDA(Number(true, 750, -2)) == "-7.50"
  {
    assert Digits(7) == "7" && Digits(75) == "75" && Digits(750) == "750";
  }
}
