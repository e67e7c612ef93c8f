/** The canonical text of a decimal number (the General Decimal Arithmetic
    specification, "to-scientific-string") and its reading as a numeric string. */
module DecimalText {
  import opened Bytes
  import opened ModularPower

  /** A sign, and either a coefficient and a power of ten or a named special value. */
  datatype Numeric = Number(negative: bool, coefficient: nat, exponent: int)
                   | Special(negative: bool, name: string)

  function Digit(d: nat): char
    requires d < 10
  {
    d as char + '0'
  }

  /** big.Int's String and strconv's Itoa for a natural. */
  function Digits(n: nat): (s: string)
    ensures s != []
  {
    if n < 10 then [Digit(n)] else Digits(n / 10) + [Digit(n % 10)]
  }

  function Itoa(i: int): string {
    if i < 0 then "-" + Digits(-i) else Digits(i)
  }

  function Zeros(n: nat): (s: string)
    ensures |s| == n
  {
    seq(n, i => '0')
  }

  // --- the printer ------------------------------------------------------

  /** An exponent of at most zero: exactly `-exponent` digits follow the point. */
  function FormatPlain(digits: string, exponent: int): string
    requires exponent <= 0
  {
    if exponent == 0 then digits
    else
      var frac := -exponent;
      if |digits| > frac then digits[..|digits| - frac] + "." + digits[|digits| - frac..]
      else "0." + Zeros(frac - |digits|) + digits
  }

  function FormatScientific(digits: string, adjexp: int): string
    requires digits != []
  {
    var sign := if adjexp < 0 then "-" else "+";
    var magnitude := if adjexp < 0 then ToInt32(-adjexp) else adjexp;
    Mantissa(digits) + "E" + sign + Itoa(magnitude)
  }

  function Mantissa(digits: string): string
    requires digits != []
  {
    if |digits| == 1 then digits else digits[..1] + "." + digits[1..]
  }

  /** The exponent arithmetic is 32-bit and wraps. */
  function FormatDecimalGDA(v: Numeric): string {
    var body := Body(v);
    if v.negative then "-" + body else body
  }

  function Body(v: Numeric): string {
    if v.Special? then v.name
    else
      var digits := Digits(v.coefficient);
      var adjexp := ToInt32(v.exponent + |digits| - 1);
      if v.exponent <= 0 && adjexp >= -6 then FormatPlain(digits, v.exponent)
      else FormatScientific(digits, adjexp)
  }

  // --- the reader -------------------------------------------------------

  predicate IsDigit(c: char) {
    '0' <= c <= '9'
  }

  ghost predicate AllDigits(s: string) {
    forall i | 0 <= i < |s| :: IsDigit(s[i])
  }

  function ReadNat(s: string): Option<nat> {
    if s == [] || !IsDigit(s[|s| - 1]) then None
    else
      var d := (s[|s| - 1] - '0') as nat;
      if |s| == 1 then Some(d)
      else match ReadNat(s[..|s| - 1])
        case None => None
        case Some(n) => Some(10 * n + d)
  }

  /** The position of the first `c`, or the length when there is none. */
  function IndexOf(s: string, c: char): (i: nat)
    ensures i <= |s|
  {
    if s == [] || s[0] == c then 0 else 1 + IndexOf(s[1..], c)
  }

  /** Digits with at most one point: the digits as one number and how many follow the point. */
  function ReadMantissa(s: string): Option<(nat, nat)> {
    var p := IndexOf(s, '.');
    if p == |s| then
      match ReadNat(s)
      case None => None
      case Some(n) => Some((n, 0))
    else if p == 0 || p + 1 == |s| then None
    else
      match ReadNat(s[..p] + s[p + 1..])
      case None => None
      case Some(n) => Some((n, |s| - p - 1))
  }

  function ReadExponent(s: string): Option<int> {
    if s == [] || (s[0] != '+' && s[0] != '-') then None
    else
      match ReadNat(s[1..])
      case None => None
      case Some(n) => Some(if s[0] == '-' then 0 - n else n)
  }

  function Combine(negative: bool, mantissa: Option<(nat, nat)>, exponent: Option<int>): Option<Numeric> {
    match (mantissa, exponent)
    case (Some(m), Some(x)) => Some(Number(negative, m.0, x - m.1))
    case _ => None
  }

  function ReadNumber(s: string, negative: bool): Option<Numeric> {
    var e := IndexOf(s, 'E');
    if e == |s| then Combine(negative, ReadMantissa(s), Some(0))
    else Combine(negative, ReadMantissa(s[..e]), ReadExponent(s[e + 1..]))
  }

  function ReadUnsigned(s: string, negative: bool): Option<Numeric> {
    if s == "NaN" || s == "Infinity" then Some(Special(negative, s)) else ReadNumber(s, negative)
  }

  /** A numeric string: the value with its exact exponent, so 1.0 and 1.00 differ. */
  function ReadNumeric(s: string): Option<Numeric> {
    if s != [] && s[0] == '-' then ReadUnsigned(s[1..], true) else ReadUnsigned(s, false)
  }

  // --- digits -----------------------------------------------------------

  lemma {:induction false} DigitsAreDigits(n: nat)
    ensures AllDigits(Digits(n))
  {
    if n >= 10 {
      DigitsAreDigits(n / 10);
    }
  }

  lemma {:induction false} ReadDigits(n: nat)
    ensures ReadNat(Digits(n)) == Some(n)
  {
    if n >= 10 {
      ReadDigits(n / 10);
      assert Digits(n)[..|Digits(n)| - 1] == Digits(n / 10);
    }
  }

  lemma {:induction false} ReadLeadingZeros(k: nat, s: string)
    requires s != []
    ensures ReadNat(Zeros(k) + s) == ReadNat(s)
    decreases |s|
  {
    var t := Zeros(k) + s;
    assert t[|t| - 1] == s[|s| - 1];
    if |s| > 1 {
      assert t[..|t| - 1] == Zeros(k) + s[..|s| - 1];
      ReadLeadingZeros(k, s[..|s| - 1]);
    } else if k > 0 {
      assert t[..|t| - 1] == Zeros(k);
      ReadZeros(k);
    } else {
      assert t == s;
    }
  }

  lemma {:induction false} ReadZeros(k: nat)
    requires k > 0
    ensures ReadNat(Zeros(k)) == Some(0)
  {
    if k > 1 {
      assert Zeros(k)[..k - 1] == Zeros(k - 1);
      ReadZeros(k - 1);
    }
  }

  lemma {:induction false} FirstIndex(pre: string, c: char, post: string)
    requires c !in pre
    ensures IndexOf(pre + [c] + post, c) == |pre|
    ensures IndexOf(pre, c) == |pre|
  {
    if pre != [] {
      FirstIndex(pre[1..], c, post);
      assert (pre + [c] + post)[1..] == pre[1..] + [c] + post;
    }
  }

  // --- what the reader makes of each printed form -----------------------

  lemma ReadWhole(digits: string)
    requires AllDigits(digits) && digits != []
    ensures ReadMantissa(digits) == match ReadNat(digits)
                                    case None => None
                                    case Some(n) => Some((n, 0))
  {
    FirstIndex(digits, '.', "");
  }

  lemma ReadPointed(whole: string, frac: string)
    requires AllDigits(whole) && AllDigits(frac) && whole != [] && frac != []
    ensures ReadMantissa(whole + "." + frac) == match ReadNat(whole + frac)
                                                case None => None
                                                case Some(n) => Some((n, |frac|))
  {
    var s := whole + "." + frac;
    FirstIndex(whole, '.', frac);
    assert s == whole + ['.'] + frac;
    assert s[..|whole|] == whole && s[|whole| + 1..] == frac;
  }

  ghost predicate MantissaChars(s: string) {
    s != [] && forall i | 0 <= i < |s| :: IsDigit(s[i]) || s[i] == '.'
  }

  lemma ReadWithoutExponent(m: string, negative: bool)
    requires MantissaChars(m)
    ensures ReadNumber(m, negative) == Combine(negative, ReadMantissa(m), Some(0))
  {
    FirstIndex(m, 'E', "");
  }

  lemma ReadWithExponent(m: string, x: string, r: (nat, nat), e: int, negative: bool)
    requires MantissaChars(m) && ReadMantissa(m) == Some(r) && ReadExponent(x) == Some(e)
    ensures ReadNumber(m + ['E'] + x, negative) == Some(Number(negative, r.0, e - r.1))
  {
    var s := m + ['E'] + x;
    FirstIndex(m, 'E', x);
    assert s[..|m|] == m;
    assert s[|m| + 1..] == x;
  }

  lemma ReadSigned(sign: char, n: nat)
    requires sign == '+' || sign == '-'
    ensures ReadExponent([sign] + Digits(n)) == Some(if sign == '-' then 0 - n else n)
  {
    assert ([sign] + Digits(n))[1..] == Digits(n);
    ReadDigits(n);
  }

  lemma SplitPlain(digits: string, frac: nat)
    requires AllDigits(digits) && 0 < frac < |digits|
    ensures ReadMantissa(FormatPlain(digits, 0 - frac)) == match ReadNat(digits)
                                                           case None => None
                                                           case Some(n) => Some((n, frac))
  {
    hide ReadMantissa, ReadNat, FormatPlain;
    var p := |digits| - frac;
    var whole, part := digits[..p], digits[p..];
    SplitForm(digits, frac);
    assert whole + part == digits;
    ReadPointed(whole, part);
  }

  lemma SplitForm(digits: string, frac: nat)
    requires 0 < frac < |digits|
    ensures FormatPlain(digits, 0 - frac) == digits[..|digits| - frac] + "." + digits[|digits| - frac..]
  {
  }

  lemma PaddedForm(digits: string, frac: nat)
    requires |digits| <= frac && frac > 0
    ensures FormatPlain(digits, 0 - frac) == "0" + "." + (Zeros(frac - |digits|) + digits)
  {
    var zeros := Zeros(frac - |digits|);
    assert "0." + zeros + digits == "0" + "." + (zeros + digits);
  }

  lemma OneMoreZero(digits: string, k: nat)
    ensures "0" + (Zeros(k) + digits) == Zeros(1 + k) + digits
    ensures AllDigits(digits) ==> AllDigits(Zeros(k) + digits)
  {
  }

  lemma PaddedPlain(digits: string, frac: nat)
    requires AllDigits(digits) && digits != [] && |digits| <= frac
    ensures ReadMantissa(FormatPlain(digits, 0 - frac)) == match ReadNat(digits)
                                                           case None => None
                                                           case Some(n) => Some((n, frac))
  {
    var tail := Zeros(frac - |digits|) + digits;
    PaddedForm(digits, frac);
    OneMoreZero(digits, frac - |digits|);
    PointedZeros(digits, tail, frac);
  }

  lemma PointedZeros(digits: string, tail: string, frac: nat)
    requires digits != [] && AllDigits(tail) && tail != [] && |tail| == frac >= |digits|
    requires "0" + tail == Zeros(1 + frac - |digits|) + digits
    ensures ReadMantissa("0" + "." + tail) == match ReadNat(digits)
                                              case None => None
                                              case Some(n) => Some((n, frac))
  {
    ReadPointed("0", tail);
    ReadLeadingZeros(1 + frac - |digits|, digits);
  }

  lemma PlainChars(digits: string, exponent: int)
    requires AllDigits(digits) && digits != [] && exponent <= 0
    ensures MantissaChars(FormatPlain(digits, exponent))
    ensures StartsWithDigit(FormatPlain(digits, exponent))
  {
    if -exponent < |digits| {
    } else {
      assert AllDigits(Zeros(-exponent - |digits|));
    }
  }

  lemma PlainMantissa(c: nat, exponent: int)
    requires exponent <= 0
    ensures ReadMantissa(FormatPlain(Digits(c), exponent)) == Some((c, 0 - exponent))
  {
    var digits := Digits(c);
    DigitsAreDigits(c);
    ReadDigits(c);
    if exponent == 0 {
      ReadWhole(digits);
    } else if |digits| > -exponent {
      SplitPlain(digits, -exponent);
    } else {
      PaddedPlain(digits, -exponent);
    }
  }

  lemma PlainReadsBack(c: nat, exponent: int, negative: bool)
    requires exponent <= 0
    ensures ReadNumber(FormatPlain(Digits(c), exponent), negative) == Some(Number(negative, c, exponent))
  {
    DigitsAreDigits(c);
    PlainChars(Digits(c), exponent);
    PlainMantissa(c, exponent);
    ReadWithoutExponent(FormatPlain(Digits(c), exponent), negative);
  }

  lemma ScientificMantissa(c: nat)
    ensures MantissaChars(Mantissa(Digits(c)))
    ensures ReadMantissa(Mantissa(Digits(c))) == Some((c, |Digits(c)| - 1))
  {
    var digits := Digits(c);
    DigitsAreDigits(c);
    ReadDigits(c);
    if |digits| == 1 {
      ReadWhole(digits);
    } else {
      MantissaForm(digits);
      assert digits[..1] + digits[1..] == digits;
      hide ReadMantissa, ReadNat, Mantissa;
      ReadPointed(digits[..1], digits[1..]);
    }
  }

  lemma MantissaForm(digits: string)
    requires |digits| > 1
    ensures Mantissa(digits) == digits[..1] + "." + digits[1..]
  {
  }

  lemma ScientificForm(digits: string, adjexp: int)
    requires MIN_INT32 < adjexp <= MAX_INT32 && digits != []
    ensures FormatScientific(digits, adjexp) == Mantissa(digits) + ['E'] + SignedDigits(adjexp)
  {
    if adjexp < 0 {
      Negation(adjexp);
    }
  }

  function SignedDigits(i: int): string {
    if i < 0 then ['-'] + Digits(-i) else ['+'] + Digits(i)
  }

  lemma ReadSignedDigits(i: int)
    ensures ReadExponent(SignedDigits(i)) == Some(i)
  {
    if i < 0 {
      ReadSigned('-', -i);
    } else {
      ReadSigned('+', i);
    }
  }

  lemma ScientificReads(c: nat, adjexp: int, negative: bool)
    ensures ReadNumber(Mantissa(Digits(c)) + ['E'] + SignedDigits(adjexp), negative)
         == Some(Number(negative, c, adjexp - (|Digits(c)| - 1)))
  {
    hide *;
    ScientificMantissa(c);
    ReadSignedDigits(adjexp);
    ReadWithExponent(Mantissa(Digits(c)), SignedDigits(adjexp), (c, |Digits(c)| - 1), adjexp, negative);
  }

  lemma ScientificReadsBack(c: nat, adjexp: int, negative: bool)
    requires MIN_INT32 < adjexp <= MAX_INT32
    ensures ReadNumber(FormatScientific(Digits(c), adjexp), negative)
         == Some(Number(negative, c, adjexp - (|Digits(c)| - 1)))
  {
    ScientificForm(Digits(c), adjexp);
    ScientificReads(c, adjexp, negative);
  }

  lemma Negation(adjexp: int)
    requires MIN_INT32 < adjexp < 0
    ensures ToInt32(-adjexp) == -adjexp
  {
  }

  predicate StartsWithDigit(s: string) {
    s != [] && IsDigit(s[0])
  }

  lemma FirstCharIsDigit(c: nat, exponent: int, adjexp: int)
    ensures exponent <= 0 ==> StartsWithDigit(FormatPlain(Digits(c), exponent))
    ensures StartsWithDigit(FormatScientific(Digits(c), adjexp))
  {
    var digits := Digits(c);
    DigitsAreDigits(c);
    assert IsDigit(digits[0]);
    assert Mantissa(digits)[0] == digits[0];
    if exponent <= 0 {
      PlainChars(digits, exponent);
    }
  }

  /** The adjusted exponent neither wraps nor is the one int32 without a negation. */
  predicate Printable(v: Numeric) {
    v.Number? ==> MIN_INT32 < v.exponent + |Digits(v.coefficient)| - 1 <= MAX_INT32
  }

  predicate IsNumeric(v: Numeric) {
    match v
    case Special(_, name) => name == "NaN" || name == "Infinity"
    case Number(_, _, exponent) => FitsInt32(exponent)
  }

  lemma NumberBody(v: Numeric)
    requires v.Number? && FitsInt32(v.exponent + |Digits(v.coefficient)| - 1)
    ensures var adjexp := v.exponent + |Digits(v.coefficient)| - 1;
            Body(v) == if v.exponent <= 0 && adjexp >= -6 then FormatPlain(Digits(v.coefficient), v.exponent)
                       else FormatScientific(Digits(v.coefficient), adjexp)
  {
    InRange(v.exponent + |Digits(v.coefficient)| - 1);
  }

  lemma NumberReadsBack(v: Numeric)
    requires v.Number? && Printable(v)
    ensures ReadNumber(Body(v), v.negative) == Some(v)
  {
    var adjexp := v.exponent + |Digits(v.coefficient)| - 1;
    NumberBody(v);
    if v.exponent <= 0 && adjexp >= -6 {
      PlainNumber(v, Body(v));
    } else {
      ScientificNumber(v, Body(v), adjexp);
    }
  }

  lemma PlainNumber(v: Numeric, body: string)
    requires v.Number? && v.exponent <= 0 && body == FormatPlain(Digits(v.coefficient), v.exponent)
    ensures ReadNumber(body, v.negative) == Some(v)
  {
    PlainReadsBack(v.coefficient, v.exponent, v.negative);
  }

  lemma ScientificNumber(v: Numeric, body: string, adjexp: int)
    requires v.Number? && adjexp == v.exponent + |Digits(v.coefficient)| - 1
    requires MIN_INT32 < adjexp <= MAX_INT32 && body == FormatScientific(Digits(v.coefficient), adjexp)
    ensures ReadNumber(body, v.negative) == Some(v)
  {
    hide *;
    ScientificReadsBack(v.coefficient, adjexp, v.negative);
    assert v == Number(v.negative, v.coefficient, adjexp - (|Digits(v.coefficient)| - 1));
  }

  lemma NumberStartsWithDigit(v: Numeric)
    requires v.Number?
    ensures StartsWithDigit(Body(v))
  {
    FirstCharIsDigit(v.coefficient, v.exponent, ToInt32(v.exponent + |Digits(v.coefficient)| - 1));
  }

  lemma ReadDigitFirst(s: string, negative: bool)
    requires StartsWithDigit(s)
    ensures ReadUnsigned(s, negative) == ReadNumber(s, negative)
  {
    assert s[0] != 'N' && s[0] != 'I';
  }

  lemma WithSign(body: string, negative: bool)
    requires body != [] && body[0] != '-'
    ensures ReadNumeric(if negative then "-" + body else body) == ReadUnsigned(body, negative)
  {
    assert ("-" + body)[1..] == body;
  }

  lemma InRange(i: int)
    requires FitsInt32(i)
    ensures ToInt32(i) == i
  {
  }

  /** Reading the printed form gives back sign, coefficient and exponent, quantum and zeros
      included. */
  lemma PrintedReadsBack(v: Numeric)
    requires IsNumeric(v) && Printable(v)
    ensures ReadNumeric(FormatDecimalGDA(v)) == Some(v)
  {
    if v.Number? {
      NumberReadsBack(v);
      NumberStartsWithDigit(v);
      ReadDigitFirst(Body(v), v.negative);
    }
    WithSign(Body(v), v.negative);
  }

  /** No two numbers of the printable range share a text. */
  lemma PrinterIsInjective(v: Numeric, w: Numeric)
    requires IsNumeric(v) && Printable(v) && IsNumeric(w) && Printable(w)
    requires FormatDecimalGDA(v) == FormatDecimalGDA(w)
    ensures v == w
  {
    PrintedReadsBack(v);
    PrintedReadsBack(w);
  }

  lemma {:induction false} MinusIsNoDigit(s: string)
    ensures ReadNat("-" + s) == None
  {
    var t := "-" + s;
    if s != [] {
      assert t[..|t| - 1] == "-" + s[..|s| - 1];
      MinusIsNoDigit(s[..|s| - 1]);
    }
  }

  /** The least int32 has no negation in 32 bits: its text carries two minus signs. */
  lemma LeastExponentForm(digits: string, n: nat)
    requires digits != [] && n == -MIN_INT32
    ensures FormatScientific(digits, MIN_INT32) == Mantissa(digits) + ['E'] + ("-" + ("-" + Digits(n)))
  {
    hide Digits, Mantissa;
    assert ToInt32(n) == MIN_INT32;
  }

  lemma ReadTwoMinuses(s: string)
    ensures ReadExponent("-" + ("-" + s)) == None
  {
    assert ("-" + ("-" + s))[1..] == "-" + s;
    MinusIsNoDigit(s);
  }

  lemma ReadBadExponent(m: string, x: string, negative: bool)
    requires MantissaChars(m) && ReadExponent(x) == None
    ensures ReadNumber(m + ['E'] + x, negative) == None
  {
    var s := m + ['E'] + x;
    FirstIndex(m, 'E', x);
    assert s[..|m|] == m && s[|m| + 1..] == x;
  }

  lemma LeastExponentUnreadable(c: nat, negative: bool)
    ensures ReadNumber(FormatScientific(Digits(c), MIN_INT32), negative) == None
  {
    var n: nat := -MIN_INT32;
    hide *;
    ScientificMantissa(c);
    LeastExponentForm(Digits(c), n);
    ReadTwoMinuses(Digits(n));
    ReadBadExponent(Mantissa(Digits(c)), "-" + ("-" + Digits(n)), negative);
  }

  lemma WrappedBody(v: Numeric, adjexp: int)
    requires v.Number? && adjexp == ToInt32(v.exponent + |Digits(v.coefficient)| - 1)
    requires v.exponent > 0 || adjexp < -6
    ensures Body(v) == FormatScientific(Digits(v.coefficient), adjexp)
  {
  }

  lemma UnprintableDiffers(v: Numeric)
    requires v.Number? && IsNumeric(v) && !Printable(v) && |Digits(v.coefficient)| <= MAX_INT32
    ensures ReadNumber(Body(v), v.negative) != Some(v)
  {
    var len := |Digits(v.coefficient)|;
    var adjexp := ToInt32(v.exponent + len - 1);
    assert v.exponent > 0 || adjexp == MIN_INT32;
    assert adjexp == MIN_INT32 || adjexp - (len - 1) != v.exponent;
    hide *;
    WrappedBody(v, adjexp);
    if adjexp == MIN_INT32 {
      LeastExponentUnreadable(v.coefficient, v.negative);
    } else {
      ScientificReadsBack(v.coefficient, adjexp, v.negative);
    }
  }

  /** With a digit count that is itself an int32, the text of a number reads back exactly when
      the adjusted exponent is representable and can be negated. */
  lemma PrinterIsExact(v: Numeric)
    requires v.Number? && IsNumeric(v) && |Digits(v.coefficient)| <= MAX_INT32
    ensures ReadNumeric(FormatDecimalGDA(v)) == Some(v) <==> Printable(v)
  {
    if Printable(v) {
      PrintedReadsBack(v);
    } else {
      UnprintableDiffers(v);
      NumberStartsWithDigit(v);
      ReadDigitFirst(Body(v), v.negative);
      WithSign(Body(v), v.negative);
    }
  }

  // --- the canonical form ---------------------------------------------------

  /** The digits of a number: as many as it has in base ten, without a leading zero. */
  lemma {:induction false} DigitsAreMinimal(n: nat)
    ensures n < Pow(10, |Digits(n)|) && (|Digits(n)| > 1 ==> Pow(10, |Digits(n)| - 1) <= n)
    ensures Digits(n)[0] == '0' <==> n == 0
    ensures n == 0 ==> |Digits(n)| == 1
  {
    if n < 10 {
      assert Pow(10, 1) == 10 * Pow(10, 0);
    } else {
      var q := n / 10;
      DigitsAreMinimal(q);
      assert Digits(n) == Digits(q) + [Digit(n % 10)];
      assert Pow(10, |Digits(n)|) == 10 * Pow(10, |Digits(q)|);
      if |Digits(q)| == 1 {
        assert Pow(10, 1) == 10 * Pow(10, 0);
      } else {
        assert Pow(10, |Digits(q)|) == 10 * Pow(10, |Digits(q)| - 1);
      }
    }
  }

  /** A plain text of d digits: exactly as many behind the point as the exponent says, no point
      without any, and no zero in front but the one before a point. */
  predicate PlainShape(s: string, d: nat, exponent: int) {
    && exponent <= 0 && s != [] && 'E' !in s
    && (exponent == 0 ==> '.' !in s && |s| == d)
    && (exponent < 0 ==> |s| == (if d > -exponent then d + 1 else 2 - exponent) && s[|s| + exponent - 1] == '.')
    && (s[0] == '0' ==> |s| == 1 || s[1] == '.')
  }

  /** A scientific text of d digits: one digit before the point, which is there only when more
      follow, and the adjusted exponent with its sign and without leading zeros. */
  predicate ScientificShape(s: string, d: nat, adjusted: int) {
    var e := if d == 1 then 1 else d + 1;
    && e + 2 < |s| && s[e] == 'E' && 'E' !in s[..e] && (d > 1 ==> s[1] == '.')
    && s[e + 1] == (if adjusted < 0 then '-' else '+') && s[e + 2] != '0'
  }

  /** The form of the text: a sign for negative numbers only, and the plain form exactly when the
      exponent is not positive and the adjusted exponent is at least -6. */
  lemma CanonicalForm(v: Numeric)
    requires v.Number? && Printable(v)
    ensures var d, body := |Digits(v.coefficient)|, Body(v);
            var adjusted := v.exponent + d - 1;
            && FormatDecimalGDA(v) == (if v.negative then "-" else "") + body
            && if v.exponent > 0 || adjusted < -6 then ScientificShape(body, d, adjusted)
               else PlainShape(body, d, v.exponent)
  {
    hide Body, Digits, ScientificShape, PlainShape;
    assert "" + Body(v) == Body(v);
    if v.exponent > 0 || v.exponent + |Digits(v.coefficient)| - 1 < -6 {
      ScientificBody(v);
    } else {
      PlainBody(v);
    }
  }

  lemma ScientificBody(v: Numeric)
    requires v.Number? && Printable(v)
    requires v.exponent > 0 || v.exponent + |Digits(v.coefficient)| - 1 < -6
    ensures ScientificShape(Body(v), |Digits(v.coefficient)|, v.exponent + |Digits(v.coefficient)| - 1)
  {
    hide Body, Digits, Pow, FormatScientific, Mantissa, SignedDigits, ScientificShape;
    var digits := Digits(v.coefficient);
    var adjusted := v.exponent + |digits| - 1;
    NumberBody(v);
    DigitsAreDigits(v.coefficient);
    ScientificForm(digits, adjusted);
    DigitsAreDigits(if adjusted < 0 then -adjusted else adjusted);
    DigitsAreMinimal(if adjusted < 0 then -adjusted else adjusted);
    ScientificIsShaped(digits, adjusted);
  }

  lemma PlainBody(v: Numeric)
    requires v.Number? && Printable(v)
    requires v.exponent <= 0 && v.exponent + |Digits(v.coefficient)| - 1 >= -6
    ensures PlainShape(Body(v), |Digits(v.coefficient)|, v.exponent)
  {
    hide Body, Digits, Pow, FormatPlain, PlainShape;
    NumberBody(v);
    DigitsAreDigits(v.coefficient);
    DigitsAreMinimal(v.coefficient);
    PlainIsShaped(Digits(v.coefficient), v.exponent);
  }

  lemma PlainIsShaped(digits: string, exponent: int)
    requires exponent <= 0 && digits != [] && AllDigits(digits) && (digits[0] == '0' ==> |digits| == 1)
    ensures PlainShape(FormatPlain(digits, exponent), |digits|, exponent)
  {
    PlainChars(digits, exponent);
    var s := FormatPlain(digits, exponent);
    if exponent < 0 {
      if |digits| > -exponent {
        SplitForm(digits, -exponent);
      } else {
        PaddedForm(digits, -exponent);
      }
    }
  }

  lemma ScientificIsShaped(digits: string, adjusted: int)
    requires digits != [] && AllDigits(digits) && adjusted != 0
    requires AllDigits(Digits(if adjusted < 0 then -adjusted else adjusted))
    requires Digits(if adjusted < 0 then -adjusted else adjusted)[0] != '0'
    ensures ScientificShape(Mantissa(digits) + ['E'] + SignedDigits(adjusted), |digits|, adjusted)
  {
    var m, x := Mantissa(digits), SignedDigits(adjusted);
    assert (m + ['E'] + x)[..|m|] == m;
    if |digits| > 1 {
      MantissaForm(digits);
    }
    hide Digits;
  }
}
