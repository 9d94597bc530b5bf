/**
  Human-readable byte counts of the shared utility module: `bytesString`
  prints a count below a kibibyte as plain bytes, a count below a mebibyte
  as whole kibibytes rounded up, and anything larger with one decimal place
  in the largest binary unit that fits, dropping a trailing `.0`.

  The count is a JavaScript number; the model takes the non-negative
  integers a double holds exactly. Dividing such a count by a power of two
  is exact, and `toFixed(1)` then picks the integer `n` for which `n / 10`
  is nearest to the quotient, the larger one on a tie, so every step below
  is integer arithmetic.
*/
module Bytes {
  import opened Strings

  const KB: nat := 1024
  const MB: nat := KB * KB
  const GB: nat := MB * KB
  const TB: nat := GB * KB
  const PB: nat := TB * KB

  /** `Number.MAX_SAFE_INTEGER`, the largest integer below which every integer is a double. */
  const MaxSafeInteger: nat := 0x1F_FFFF_FFFF_FFFF

  /** A byte count as the formatter receives it. */
  type ByteCount = n: nat | n <= MaxSafeInteger

  function Pow(b: nat, e: nat): (r: nat)
    ensures b >= 1 ==> r >= 1
  {
    if e == 0 then 1 else b * Pow(b, e - 1)
  }

  /** Each unit is the previous one times 1024: the unit constants are the powers of 1024. */
  lemma {:induction false} UnitLadder()
    ensures KB == Pow(1024, 1) && MB == Pow(1024, 2) && GB == Pow(1024, 3)
    ensures TB == Pow(1024, 4) && PB == Pow(1024, 5)
    ensures PB == 1125899906842624
  {
    assert Pow(1024, 1) == 1024 * Pow(1024, 0);
    assert Pow(1024, 2) == 1024 * Pow(1024, 1);
    assert Pow(1024, 3) == 1024 * Pow(1024, 2);
    assert Pow(1024, 4) == 1024 * Pow(1024, 3);
    assert Pow(1024, 5) == 1024 * Pow(1024, 4);
  }

  datatype SizeUnit = Byte | Kilo | Mega | Giga | Tera | Peta

  function Exponent(u: SizeUnit): nat {
    match u
    case Byte => 0
    case Kilo => 1
    case Mega => 2
    case Giga => 3
    case Tera => 4
    case Peta => 5
  }

  /** The number of bytes in one `u`. */
  function Scale(u: SizeUnit): (r: nat)
    ensures r == Pow(KB, Exponent(u))
  {
    UnitLadder();
    match u
    case Byte => 1
    case Kilo => KB
    case Mega => MB
    case Giga => GB
    case Tera => TB
    case Peta => PB
  }

  function Suffix(u: SizeUnit): string {
    match u
    case Byte => "B"
    case Kilo => "KB"
    case Mega => "MB"
    case Giga => "GB"
    case Tera => "TB"
    case Peta => "PB"
  }

  /** The unit a count is printed in: the largest one that is at most the count, bytes when none is. */
  function TierOf(bytes: nat): (u: SizeUnit)
    ensures u == Byte <==> bytes < KB
    ensures u != Byte ==> Scale(u) <= bytes
    ensures u != Peta ==> bytes < KB * Scale(u)
  {
    if bytes < KB then Byte
    else if bytes < MB then Kilo
    else if bytes < GB then Mega
    else if bytes < TB then Giga
    else if bytes < PB then Tera
    else Peta
  }

  /** Exactly one unit is large enough for the count and not too large. */
  lemma TierUnique(bytes: nat, u: SizeUnit)
    requires u == Byte || Scale(u) <= bytes
    requires u == Peta || bytes < KB * Scale(u)
    ensures u == TierOf(bytes)
  {
  }

  /** `Math.ceil(n / d)`: the least multiple of `d` that is at least `n`, counted in `d`s. */
  function CeilDiv(n: nat, d: nat): (r: nat)
    requires d > 0
    ensures n <= r * d < n + d
  {
    var q := (n + d - 1) / d;
    assert q * d + (n + d - 1) % d == n + d - 1;
    q
  }

  /**
    `toFixed(1)` of `bytes / scale`, in tenths: the `n` for which `n / 10` is
    nearest to the quotient, the larger `n` when two are equally near.
  */
  function RoundTenths(bytes: nat, scale: nat): (n: nat)
    requires scale > 0
    ensures -(scale as int) <= 2 * (10 * bytes - n * scale) < scale
  {
    var n := (20 * bytes + scale) / (2 * scale);
    assert n * (2 * scale) + (20 * bytes + scale) % (2 * scale) == 20 * bytes + scale;
    n
  }

  /** Nearest tenths are unique: no other count of tenths lies in the same window. */
  lemma RoundTenthsUnique(bytes: nat, scale: nat, m: nat)
    requires scale > 0
    requires -(scale as int) <= 2 * (10 * bytes - m * scale) < scale
    ensures m == RoundTenths(bytes, scale)
  {
    assert m * (2 * scale) <= 20 * bytes + scale < m * (2 * scale) + 2 * scale;
    DivUnique(20 * bytes + scale, 2 * scale, m);
  }

  /** Integer division is determined by the window its quotient lies in. */
  lemma DivUnique(x: nat, d: nat, q: nat)
    requires d > 0 && q * d <= x < q * d + d
    ensures x / d == q
  {
    var r := x / d;
    assert r * d + x % d == x;
    if r < q {
      MulLe(r + 1, q, d);
    } else if r > q {
      MulLe(q + 1, r, d);
    }
  }

  lemma MulLe(a: nat, b: nat, d: nat)
    requires a <= b
    ensures a * d <= b * d
  {
  }

  /** The text `toFixed(1)` gives for `n` tenths: whole part, point, one digit. */
  function FixedOne(n: nat): (r: string)
    ensures |r| >= 3 && r[|r| - 2] == '.'
    ensures AllDigits(r[..|r| - 2]) && IsDigit(r[|r| - 1])
    ensures DecimalValue(r[..|r| - 2]) * 10 + DigitValue(r[|r| - 1]) == n
  {
    var w := DecimalText(n / 10);
    DecimalTextRoundTrip(n / 10);
    var r := w + "." + [DigitChar(n % 10)];
    assert r[..|r| - 2] == w;
    r
  }

  /** One decimal place with a trailing `.0` removed. */
  function ScaledText(bytes: nat, scale: nat): (r: string)
    requires scale > 0
  {
    TrimSuffix(FixedOne(RoundTenths(bytes, scale)), ".0")
  }

  /** A trailing `.0` goes exactly when the tenths digit is zero; the whole part is always kept. */
  lemma ScaledTextShape(bytes: nat, scale: nat)
    requires scale > 0
    ensures var n := RoundTenths(bytes, scale);
            ScaledText(bytes, scale) == if n % 10 == 0 then DecimalText(n / 10) else FixedOne(n)
  {
    var n := RoundTenths(bytes, scale);
    var w := DecimalText(n / 10);
    assert FixedOne(n) == w + "." + [DigitChar(n % 10)];
    if n % 10 == 0 {
      assert FixedOne(n) == w + ".0";
      TrimSuffixUndoesConcat(w, ".0");
    } else {
      assert FixedOne(n)[|FixedOne(n)| - 1] != '0';
    }
  }

  /** `bytesString(bytes)`. */
  function BytesString(bytes: ByteCount): (r: string)
    ensures EndsWith(r, Suffix(TierOf(bytes)))
  {
    if bytes < KB then DecimalText(bytes) + "B"
    else if bytes < MB then DecimalText(CeilDiv(bytes, KB)) + "KB"
    else if bytes < GB then ScaledText(bytes, MB) + "MB"
    else if bytes < TB then ScaledText(bytes, GB) + "GB"
    else if bytes < PB then ScaledText(bytes, TB) + "TB"
    else ScaledText(bytes, PB) + "PB"
  }

  /** The number printed before the suffix, by unit. */
  function NumberText(bytes: nat, u: SizeUnit): string {
    match u
    case Byte => DecimalText(bytes)
    case Kilo => DecimalText(CeilDiv(bytes, KB))
    case _ => ScaledText(bytes, Scale(u))
  }

  /** The formatter is the number in the count's unit followed by that unit's suffix. */
  lemma BytesStringByTier(bytes: ByteCount)
    ensures BytesString(bytes) == NumberText(bytes, TierOf(bytes)) + Suffix(TierOf(bytes))
  {
  }

  /** Below a kibibyte the count is printed exactly and can be read back. */
  lemma SmallCountsExact(bytes: ByteCount)
    requires bytes < KB
    ensures var r := BytesString(bytes);
            r[|r| - 1] == 'B' && AllDigits(r[..|r| - 1]) && DecimalValue(r[..|r| - 1]) == bytes
  {
    var w := DecimalText(bytes);
    assert (w + "B")[..|w|] == w;
    DecimalTextRoundTrip(bytes);
  }

  /** Kibibytes are rounded up, so the printed count is never below the true size and at most 1024. */
  lemma KiloRoundsUp(bytes: ByteCount)
    requires KB <= bytes < MB
    ensures var k := CeilDiv(bytes, KB);
            && BytesString(bytes) == DecimalText(k) + "KB"
            && (k - 1) * KB < bytes <= k * KB
            && 1 <= k <= 1024
  {
  }

  /** Rounding up a whole number of units gives that number. */
  lemma CeilDivExact(k: nat, d: nat)
    requires d > 0
    ensures CeilDiv(k * d, d) == k
  {
    var r := CeilDiv(k * d, d);
    assert k * d <= r * d < k * d + d;
    if r < k {
      MulLe(r + 1, k, d);
    } else if r > k {
      MulLe(k + 1, r, d);
    }
  }

  /** A whole number of units is a whole number of tenths, printed without `.0`. */
  lemma ScaledWhole(k: nat, scale: nat)
    requires scale > 0
    ensures ScaledText(k * scale, scale) == DecimalText(k)
  {
    var b := k * scale;
    WholeArithmetic(k, scale);
    RoundTenthsUnique(b, scale, 10 * k);
    ScaledTextShape(b, scale);
    assert (10 * k) / 10 == k && (10 * k) % 10 == 0;
  }

  lemma WholeArithmetic(k: nat, scale: nat)
    ensures (10 * k) * scale == 10 * (k * scale)
  {
  }

  /** Half a unit more rounds to a `.5`. */
  lemma ScaledHalf(k: nat, scale: nat, half: nat)
    requires half > 0 && scale == 2 * half
    ensures ScaledText(k * scale + half, scale) == DecimalText(k) + ".5"
  {
    RoundTenthsOfHalf(k, scale, half);
    ScaledTextShape(k * scale + half, scale);
    FixedOneOfHalf(k);
  }

  /** Exactly half-way between two tenths the tie goes up: `k` units and a half is `10k + 5` tenths. */
  lemma RoundTenthsOfHalf(k: nat, scale: nat, half: nat)
    requires half > 0 && scale == 2 * half
    ensures RoundTenths(k * scale + half, scale) == 10 * k + 5
  {
    HalfArithmetic(k, scale, half);
    RoundTenthsUnique(k * scale + half, scale, 10 * k + 5);
  }

  lemma HalfArithmetic(k: nat, scale: nat, half: nat)
    requires scale == 2 * half
    ensures 10 * (k * scale + half) == (10 * k + 5) * scale
  {
  }

  lemma FixedOneOfHalf(k: nat)
    ensures FixedOne(10 * k + 5) == DecimalText(k) + ".5"
  {
    var n := 10 * k + 5;
    assert n / 10 == k && n % 10 == 5;
    assert DigitChar(5) == '5';
    assert "." + ['5'] == ".5";
  }

  /** A count that is a whole number of its unit prints without a decimal point. */
  lemma WholeUnits(k: nat, u: SizeUnit)
    requires u != Byte
    requires k * Scale(u) <= MaxSafeInteger
    requires TierOf(k * Scale(u)) == u
    ensures BytesString(k * Scale(u)) == DecimalText(k) + Suffix(u)
  {
    BytesStringByTier(k * Scale(u));
    if u == Kilo {
      CeilDivExact(k, KB);
    } else {
      ScaledWhole(k, Scale(u));
    }
  }

  /** A count at the exact half of a unit step prints with `.5`. */
  lemma HalfUnits(bytes: ByteCount, k: nat, u: SizeUnit, half: nat)
    requires u != Byte && u != Kilo && Scale(u) == 2 * half
    requires bytes == k * Scale(u) + half && TierOf(bytes) == u
    ensures BytesString(bytes) == DecimalText(k) + ".5" + Suffix(u)
  {
    ScaledHalf(k, Scale(u), half);
    BytesStringScaled(bytes, u);
  }

  lemma BytesStringScaled(bytes: ByteCount, u: SizeUnit)
    requires u != Byte && u != Kilo && TierOf(bytes) == u
    ensures BytesString(bytes) == ScaledText(bytes, Scale(u)) + Suffix(u)
  {
    BytesStringByTier(bytes);
  }

  /** In the last unit a safe integer is below 8 PB, so at most `8.0` is printed. */
  lemma PetaBelowEight(bytes: ByteCount)
    requires bytes >= PB
    ensures RoundTenths(bytes, PB) <= 80
  {
    var n := RoundTenths(bytes, PB);
    assert n * (2 * PB) <= 20 * bytes + PB;
    if n > 80 {
      MulLe(81, n, 2 * PB);
    }
  }

  /** The number text is never empty; for plain bytes it ends in a digit. */
  lemma NumberTextShape(bytes: nat, u: SizeUnit)
    ensures |NumberText(bytes, u)| >= 1
    ensures u == Byte ==> IsDigit(NumberText(bytes, u)[|NumberText(bytes, u)| - 1])
  {
    if u != Byte && u != Kilo {
      var f := FixedOne(RoundTenths(bytes, Scale(u)));
      assert |TrimSuffix(f, ".0")| >= |f| - 2;
    }
  }

  /** The letter before the final `B`, for the units that have one. */
  function UnitLetter(u: SizeUnit): char
    requires u != Byte
  {
    match u
    case Kilo => 'K'
    case Mega => 'M'
    case Giga => 'G'
    case Tera => 'T'
    case Peta => 'P'
  }

  /** The character before the final `B` fits the unit: a digit for plain bytes, the unit letter otherwise. */
  predicate MarkFits(u: SizeUnit, c: char) {
    if u == Byte then IsDigit(c) else c == UnitLetter(u)
  }

  lemma TextMark(bytes: ByteCount)
    ensures var r := BytesString(bytes);
            |r| >= 2 && r[|r| - 1] == 'B' && MarkFits(TierOf(bytes), r[|r| - 2])
  {
    var u := TierOf(bytes);
    var num := NumberText(bytes, u);
    BytesStringByTier(bytes);
    NumberTextShape(bytes, u);
    var r := num + Suffix(u);
    if u == Byte {
      assert r[|r| - 2] == num[|num| - 1];
    } else {
      assert r[|r| - 2] == Suffix(u)[0];
    }
  }

  /** The unit can be read back from the text: equal texts come from counts in the same unit. */
  lemma SuffixDeterminesTier(a: ByteCount, b: ByteCount)
    requires BytesString(a) == BytesString(b)
    ensures TierOf(a) == TierOf(b)
  {
    TextMark(a);
    TextMark(b);
  }

  lemma SmallExamples()
    ensures BytesString(0) == "0B"
    ensures BytesString(1023) == "1023B"
  {
    assert DecimalText(1023) == "1023" by {
      assert DecimalText(102) == "102" by {
        assert DecimalText(10) == "10";
      }
    }
  }

  lemma KiloExamples()
    ensures BytesString(1024) == "1KB"
    ensures BytesString(1025) == "2KB"
  {
    WholeUnits(1, Kilo);
    assert CeilDiv(1025, KB) == 2;
  }

  lemma MegaExamples()
    ensures BytesString(2 * MB) == "2MB"
    ensures BytesString(2 * MB + MB / 2) == "2.5MB"
  {
    WholeUnits(2, Mega);
    HalfUnits(2 * MB + MB / 2, 2, Mega, MB / 2);
  }

  lemma PetaExample()
    ensures BytesString(PB) == "1PB"
  {
    WholeUnits(1, Peta);
  }
}
