/**
 * `format_filesize`: a byte count rendered as bytes, KB, MB or GB, with the
 * unit chosen by the thresholds 1024, 1024^2 and 1024^3; whole bytes below
 * 1024, one decimal for KB and MB, two for GB.
 *
 * The quotient size / 1024^k is a power-of-two division, so a double holds it
 * exactly (for sizes below 2^53) and Python's `.1f` / `.2f` formatting rounds
 * that exact value to the nearest, ties to even.  The label keeps the rounded
 * value as an integer count of tenths or hundredths.
 */
module FileSize {
  import opened Text

  datatype Unit = B | KB | MB | GB
  {
    /** How many bytes one unit is. */
    function Bytes(): nat
    {
      match this
      case B => 1
      case KB => 1024
      case MB => 1024 * 1024
      case GB => 1024 * 1024 * 1024
    }

    /** How many decimals the label shows. */
    function Decimals(): nat
    {
      match this
      case B => 0
      case KB => 1
      case MB => 1
      case GB => 2
    }

    /** 10^Decimals(): how many label steps one unit is. */
    function Scale(): (p: nat)
      ensures p == Pow10(Decimals())
    {
      match this
      case B => 1
      case KB => 10
      case MB => 10
      case GB => 100
    }

    function Name(): string
    {
      match this
      case B => "B"
      case KB => "KB"
      case MB => "MB"
      case GB => "GB"
    }
  }

  /** A size label: `scaled` counts units of 10^-Decimals() of `unit`. */
  datatype SizeLabel = SizeLabel(scaled: nat, unit: Unit)

  /** `n / d` rounded to the nearest integer, ties to the even neighbour. */
  function RoundHalfEven(n: nat, d: nat): (q: nat)
    requires d > 0
    ensures 2 * (q * d) <= 2 * n + d && 2 * n <= 2 * (q * d) + d
    ensures (2 * n == 2 * (q * d) + d || 2 * n + d == 2 * (q * d)) ==> q % 2 == 0
  {
    var (q, r) := DivRem(n, d);
    RoundCases(n, d, q, r, q * d);
    if 2 * r < d || (2 * r == d && q % 2 == 0) then
      q
    else
      MulSucc(q, d);
      q + 1
  }

  /** Quotient and remainder of `n` by `d`, by repeated subtraction. */
  function DivRem(n: nat, d: nat): (qr: (nat, nat))
    requires d > 0
    ensures n == qr.0 * d + qr.1 && qr.1 < d
  {
    if n < d then (0, n)
    else
      var (q, r) := DivRem(n - d, d);
      MulSucc(q, d);
      (q + 1, r)
  }

  /** Euclidean division in the form the digit proofs use. */
  lemma DivMod(n: nat, d: nat, q: int, r: int)
    requires d > 0 && q == n / d && r == n % d
    ensures n == q * d + r && 0 <= r < d
  {
  }

  /** An exact multiple of `d` rounds to its quotient. */
  lemma RoundOfMultiple(k: nat, d: nat)
    requires d > 0
    ensures RoundHalfEven(k * d, d) == k
  {
    var q := RoundHalfEven(k * d, d);
    MulDiff(q, k, d);
    OnlyZeroIsSmall(q - k, d);
  }

  lemma MulDiff(a: int, b: int, d: int)
    ensures a * d - b * d == (a - b) * d
  {
  }

  /** The only multiple of `d` within half of `d` from zero is zero. */
  lemma OnlyZeroIsSmall(e: int, d: int)
    requires d > 0 && 2 * (e * d) <= d && -d <= 2 * (e * d)
    ensures e == 0
  {
  }

  /** One more multiple of `d`. */
  lemma MulSucc(q: int, d: int)
    ensures (q + 1) * d == q * d + d
  {
  }

  /** The rounding cases, with `m` standing for `q * d` and `n == m + r`. */
  lemma RoundCases(n: int, d: int, q: int, r: int, m: int)
    requires d > 0 && n == m + r && 0 <= r < d
    ensures (2 * r < d || (2 * r == d && q % 2 == 0)) ==>
      (2 * m <= 2 * n + d && 2 * n <= 2 * m + d && ((2 * n == 2 * m + d || 2 * n + d == 2 * m) ==> q % 2 == 0))
    ensures !(2 * r < d || (2 * r == d && q % 2 == 0)) ==>
      (2 * (m + d) <= 2 * n + d && 2 * n <= 2 * (m + d) + d
       && ((2 * n == 2 * (m + d) + d || 2 * n + d == 2 * (m + d)) ==> (q + 1) % 2 == 0))
  {
  }

  /** The unit `format_filesize` picks for `size`. */
  function UnitFor(size: nat): Unit
  {
    if size < 1024 then B
    else if size < 1024 * 1024 then KB
    else if size < 1024 * 1024 * 1024 then MB
    else GB
  }

  /** The value `format_filesize` shows, before it is turned into text. */
  function Label(size: nat): SizeLabel
  {
    var u := UnitFor(size);
    SizeLabel(RoundHalfEven(size * u.Scale(), u.Bytes()), u)
  }

  /** Exactly `d` decimal digits of `f`, zero-padded on the left. */
  function FractionDigits(f: nat, d: nat): (r: string)
    ensures |r| == d && AllDigits(r)
    ensures f < Pow10(d) ==> DecimalValue(r) == f
  {
    if d == 0 then ""
    else
      var r := FractionDigits(f / 10, d - 1) + [DigitChar(f % 10)];
      assert r[..|r| - 1] == FractionDigits(f / 10, d - 1);
      r
  }

  /** The digits before the decimal point. */
  function IntegerPart(l: SizeLabel): string
  {
    NatToString(l.scaled / l.unit.Scale())
  }

  /** The digits after the decimal point (none for bytes). */
  function FractionPart(l: SizeLabel): string
  {
    FractionDigits(l.scaled % l.unit.Scale(), l.unit.Decimals())
  }

  function Render(l: SizeLabel): string
  {
    IntegerPart(l) + (if l.unit.Decimals() == 0 then "" else "." + FractionPart(l)) + " " + l.unit.Name()
  }

  function FormatFilesize(size: nat): string
  {
    Render(Label(size))
  }

  /** The unit follows the three thresholds. */
  lemma UnitThresholds(size: nat)
    ensures Label(size).unit == B <==> size < 1024
    ensures Label(size).unit == KB <==> 1024 <= size < 1024 * 1024
    ensures Label(size).unit == MB <==> 1024 * 1024 <= size < 1024 * 1024 * 1024
    ensures Label(size).unit == GB <==> 1024 * 1024 * 1024 <= size
  {
  }

  /** Below 1024 the label is the exact byte count followed by " B". */
  lemma SmallSizesExact(size: nat)
    requires size < 1024
    ensures FormatFilesize(size) == NatToString(size) + " B"
  {
    var l := Label(size);
    assert l.unit == B && l.scaled == size;
    assert IntegerPart(l) == NatToString(size);
    assert Render(l) == NatToString(size) + "" + " " + "B";
  }

  /**
   * Reading the digits of the label back, with the decimal point dropped,
   * gives a number within half a last digit of the size in that unit:
   * |shown * unit - size * 10^decimals| <= unit / 2.
   */
  lemma {:induction false} RenderedMagnitude(size: nat)
    ensures var l := Label(size);
      var shown := IntegerPart(l) + FractionPart(l);
      && AllDigits(shown)
      && FormatFilesize(size) == IntegerPart(l) + (if l.unit.Decimals() == 0 then "" else "." + FractionPart(l)) + " " + l.unit.Name()
      && |FractionPart(l)| == l.unit.Decimals()
      && 2 * (DecimalValue(shown) * l.unit.Bytes()) <= 2 * (size * l.unit.Scale()) + l.unit.Bytes()
      && 2 * (size * l.unit.Scale()) <= 2 * (DecimalValue(shown) * l.unit.Bytes()) + l.unit.Bytes()
  {
    var l := Label(size);
    DigitsReadBack(l);
    var shown := IntegerPart(l) + FractionPart(l);
    assert DecimalValue(shown) == l.scaled;
  }

  /** The integer and fraction digits of a label, read together, give its scaled value. */
  lemma DigitsReadBack(l: SizeLabel)
    ensures AllDigits(IntegerPart(l) + FractionPart(l))
    ensures DecimalValue(IntegerPart(l) + FractionPart(l)) == l.scaled
  {
    var p := l.unit.Scale();
    var q, r := l.scaled / p, l.scaled % p;
    DivMod(l.scaled, p, q, r);
    DecimalValueOfNatToString(q);
    DecimalValueAppend(IntegerPart(l), FractionPart(l));
    var i, f := IntegerPart(l), FractionPart(l);
    assert DecimalValue(i) == q && Pow10(|f|) == p && DecimalValue(f) == r;
    assert DecimalValue(i + f) == DecimalValue(i) * Pow10(|f|) + DecimalValue(f);
  }

  /** The scenario size: 5,242,880 bytes renders as "5.0 MB". */
  lemma FiveMegabytes()
    ensures FormatFilesize(5242880) == "5.0 MB"
  {
    assert UnitFor(5242880) == MB;
    RoundOfMultiple(50, 1024 * 1024);
    assert Label(5242880) == SizeLabel(50, MB);
    assert IntegerPart(SizeLabel(50, MB)) == "5";
    assert FractionPart(SizeLabel(50, MB)) == "0";
  }
}
