/** Decimal text to an unsigned count of 1e-8, as the market-data decoder parses prices and sizes. */
module FixedPoint {
  import opened Words

  const SCALE: nat := 100_000_000

  predicate IsDigit(c: char) {
    '0' <= c <= '9'
  }

  function DigitOf(c: char): (d: nat)
    requires IsDigit(c)
    ensures d < 10
  {
    (c - '0') as int
  }

  predicate AllDigits(s: string) {
    forall i :: 0 <= i < |s| ==> IsDigit(s[i])
  }

  /** The number a digit string denotes. */
  function Number(s: string): nat
    requires AllDigits(s)
  {
    if s == [] then 0 else 10 * Number(s[..|s| - 1]) + DigitOf(s[|s| - 1])
  }

  function Pow10(k: nat): (p: nat)
    ensures p >= 1
  {
    if k == 0 then 1 else 10 * Pow10(k - 1)
  }

  /** Where the whole part ends: the first point, or the end of the text. */
  function PointAt(text: string): (k: nat)
    ensures k <= |text| && (forall i :: 0 <= i < k ==> text[i] != '.') && (k < |text| ==> text[k] == '.')
  {
    if text == [] || text[0] == '.' then 0
    else
      var k := PointAt(text[1..]);
      assert forall i :: 0 < i < k + 1 ==> text[i] == text[1..][i - 1];
      k + 1
  }

  function Whole(text: string): string {
    text[..PointAt(text)]
  }

  function Fraction(text: string): string {
    if PointAt(text) == |text| then "" else text[PointAt(text) + 1..]
  }

  /** At least one whole digit, then at most eight fractional digits after an optional point. */
  predicate WellFormed(text: string) {
    Whole(text) != "" && AllDigits(Whole(text)) && AllDigits(Fraction(text)) && |Fraction(text)| <= 8
  }

  function ScaledFraction(text: string): nat
    requires WellFormed(text)
  {
    Number(Fraction(text)) * Pow10(8 - |Fraction(text)|)
  }

  /** What the parser is for: the exact value times 10^8 when the form is valid and the result fits 64 bits. */
  function Exact(text: string): Option<Word> {
    if !WellFormed(text) then None
    else
      var v := Number(Whole(text)) * SCALE + ScaledFraction(text);
      if v < U64 then Some(v) else None
  }

  // ----- the parser

  /** The whole-part loop after a digit string; None is the overflow exit, and the sum is a 64-bit one. */
  function Accumulated(s: string): Option<Word>
    requires AllDigits(s)
  {
    if s == [] then Some(0)
    else
      match Accumulated(s[..|s| - 1])
      case None => None
      case Some(w) => if w > U64_MAX / 10 then None else Some((w * 10 + DigitOf(s[|s| - 1])) % U64)
  }

  /** What the source computes. */
  function Parse(text: string): Option<Word> {
    if !WellFormed(text) then None
    else
      match Accumulated(Whole(text))
      case None => None
      case Some(w) =>
        FractionFits(text);
        var f := ScaledFraction(text);
        if w > (U64_MAX - f) / SCALE then None else Some(w * SCALE + f)
  }

  method ParseFixed(text: string) returns (r: Option<Word>)
    ensures r == Parse(text)
  {
    if text == "" || text[0] == '-' {
      assert text != "" ==> !IsDigit(text[0]);
      assert text != "" ==> Whole(text) == "" || Whole(text)[0] == text[0];
      return None;
    }
    ghost var point := PointAt(text);
    var whole: Word := 0;
    var at := 0;
    while at < |text| && text[at] != '.'
      invariant at <= point && AllDigits(text[..at])
      invariant Accumulated(text[..at]) == Some(whole)
    {
      assert at < point;
      if !IsDigit(text[at]) {
        assert Whole(text)[at] == text[at];
        return None;
      }
      assert text[..at + 1][..at] == text[..at];
      if whole > U64_MAX / 10 {
        if WellFormed(text) { OverflowStays(Whole(text), text[..at + 1]); }
        return None;
      }
      whole := (whole * 10 + DigitOf(text[at])) % U64;
      at := at + 1;
    }
    assert at == point;
    if at == 0 {
      return None;
    }
    if at < |text| {
      at := at + 1;
    }
    r := ParseRest(text, at, whole);
  }

  /** Fewer than eight digits are padded with zeros. */
  method Pad(parsed: nat, count: nat) returns (fractional: nat)
    requires count <= 8
    ensures fractional == parsed * Pow10(8 - count)
  {
    fractional := parsed;
    var digits := count;
    while digits < 8
      invariant count <= digits <= 8
      invariant fractional == parsed * Pow10(digits - count)
    {
      assert parsed * (10 * Pow10(digits - count)) == (parsed * Pow10(digits - count)) * 10;
      fractional := fractional * 10;
      digits := digits + 1;
    }
  }

  /** The fractional loop, the padding loop and the final range check. */
  method ParseRest(text: string, start: nat, whole: Word) returns (r: Option<Word>)
    requires Whole(text) != "" && AllDigits(Whole(text)) && Accumulated(Whole(text)) == Some(whole)
    requires start <= |text| && text[start..] == Fraction(text)
    ensures r == Parse(text)
  {
    ghost var f := Fraction(text);
    var fractional, digits, at := 0, 0, start;
    while at < |text|
      invariant start <= at <= |text| && digits == at - start <= 8
      invariant AllDigits(f[..digits]) && fractional == Number(f[..digits])
    {
      assert f[digits] == text[at];
      if !IsDigit(text[at]) || digits == 8 {
        assert |f| > 8 || !IsDigit(f[digits]);
        return None;
      }
      assert f[..digits + 1][..digits] == f[..digits];
      fractional := fractional * 10 + DigitOf(text[at]);
      at, digits := at + 1, digits + 1;
    }
    assert f[..digits] == f;
    fractional := Pad(fractional, digits);
    FractionFits(text);
    if whole > (U64_MAX - fractional) / SCALE {
      return None;
    }
    r := Some(whole * SCALE + fractional);
  }

  lemma {:induction false} NumberFits(s: string)
    requires AllDigits(s)
    ensures Number(s) < Pow10(|s|)
  {
    if s == [] {
    } else {
      NumberFits(s[..|s| - 1]);
    }
  }

  lemma {:induction false} Pow10Splits(j: nat, k: nat)
    ensures Pow10(j + k) == Pow10(j) * Pow10(k)
  {
    if j == 0 {
    } else {
      Pow10Splits(j - 1, k);
      assert 10 * (Pow10(j - 1) * Pow10(k)) == (10 * Pow10(j - 1)) * Pow10(k);
    }
  }

  lemma Pow10Of8()
    ensures Pow10(8) == SCALE
  {
    assert Pow10(4) == 10_000;
  }

  lemma FractionFits(text: string)
    requires WellFormed(text)
    ensures ScaledFraction(text) < SCALE
  {
    var f := Fraction(text);
    NumberFits(f);
    Pow10Splits(|f|, 8 - |f|);
    Pow10Of8();
    Below(Number(f), Pow10(|f|), Pow10(8 - |f|));
  }

  lemma {:induction false} Below(x: nat, y: nat, m: nat)
    requires x < y && m >= 1
    ensures x * m < y * m
  {
    MultiplesApart(m, x, y);
  }

  lemma {:induction false} OverflowStays(s: string, prefix: string)
    requires AllDigits(s) && prefix <= s && AllDigits(prefix) && Accumulated(prefix).None?
    ensures Accumulated(s).None?
  {
    if prefix != s {
      assert prefix <= s[..|s| - 1];
      OverflowStays(s[..|s| - 1], prefix);
    } else {
      assert s == prefix;
    }
  }

  // ----- the accumulator in terms of the number

  /** Before each digit the number read so far, modulo 2^64, is at most a tenth of the range. */
  ghost predicate GuardPasses(s: string)
    requires AllDigits(s)
  {
    forall k :: 0 <= k < |s| ==> Number(s[..k]) % U64 <= U64_MAX / 10
  }

  lemma GuardOneMore(s: string)
    requires AllDigits(s) && s != ""
    ensures GuardPasses(s) <==> GuardPasses(s[..|s| - 1]) && Number(s[..|s| - 1]) % U64 <= U64_MAX / 10
  {
    hide Number;
    var init := s[..|s| - 1];
    assert forall k :: 0 <= k <= |init| ==> init[..k] == s[..k];
    assert s[..|init|] == init;
  }

  lemma NumberStep(s: string)
    requires AllDigits(s) && s != ""
    ensures Number(s) == 10 * Number(s[..|s| - 1]) + DigitOf(s[|s| - 1])
  {
  }

  lemma StepModulo(n: nat, d: nat)
    ensures (n % U64 * 10 + d) % U64 == (10 * n + d) % U64
  {
    var x := n % U64 * 10 + d;
    DivModUnique(10 * n + d, U64, 10 * (n / U64) + x / U64, x % U64);
  }

  /** The loop keeps the number modulo 2^64, and leaves by its overflow exit exactly when the guard fails. */
  lemma {:induction false} AccumulatesModulo(s: string)
    requires AllDigits(s)
    ensures Accumulated(s) == if GuardPasses(s) then Some(Number(s) % U64) else None
  {
    if s == "" {
      assert GuardPasses(s);
    } else {
      hide GuardPasses, DigitOf, Number;
      var init := s[..|s| - 1];
      AccumulatesModulo(init);
      GuardOneMore(s);
      NumberStep(s);
      StepModulo(Number(init), DigitOf(s[|s| - 1]));
    }
  }

  /** A number of 64 bits is never refused and never altered. */
  lemma {:induction false} AccumulatesExactly(s: string)
    requires AllDigits(s) && Number(s) < U64
    ensures GuardPasses(s) && Accumulated(s) == Some(Number(s))
  {
    if s == "" {
      assert Accumulated(s) == Some(0);
    } else {
      hide GuardPasses, DigitOf, Number, Accumulated;
      NumberStep(s);
      AccumulatesExactly(s[..|s| - 1]);
      GuardOneMore(s);
      AccumulatesModulo(s);
    }
  }

  lemma {:induction false} Pow10Monotone(j: nat, k: nat)
    requires j <= k
    ensures Pow10(j) <= Pow10(k)
  {
    if j == k {
    } else {
      Pow10Monotone(j, k - 1);
    }
  }

  lemma Pow10Of19()
    ensures Pow10(19) == 10_000_000_000_000_000_000
  {
    Pow10Of8();
    assert Pow10(12) == 1_000_000_000_000;
    assert Pow10(16) == 10_000_000_000_000_000;
  }

  // ----- the theorem

  lemma RangeCheckIsExact(w: Word, f: nat)
    requires f < SCALE
    ensures w > (U64_MAX - f) / SCALE <==> w * SCALE + f >= U64
  {
  }

  lemma LargeWholeOverflows(n: nat, f: nat)
    requires n >= U64
    ensures n * SCALE + f >= U64
  {
  }

  /** The whole part is too large, yet passes the guard at every digit, and its remainder modulo 2^64
      together with the fraction fits the final range check. */
  ghost predicate SlipsThrough(text: string)
    requires WellFormed(text)
  {
    && Number(Whole(text)) >= U64 && GuardPasses(Whole(text))
    && Number(Whole(text)) % U64 * SCALE + ScaledFraction(text) < U64
  }

  /** The parser returns the exact value, or rejects, for exactly the texts that do not slip through. */
  lemma ParsesExactly(text: string)
    ensures Parse(text) == Exact(text) <==> !(WellFormed(text) && SlipsThrough(text))
  {
    hide Accumulated, Number, GuardPasses, ScaledFraction;
    if WellFormed(text) {
      var n := Number(Whole(text));
      var f := ScaledFraction(text);
      FractionFits(text);
      AccumulatesModulo(Whole(text));
      RangeCheckIsExact(n % U64, f);
      if n < U64 {
        AccumulatesExactly(Whole(text));
      } else {
        LargeWholeOverflows(n, f);
      }
    }
  }

  /** In particular for every text with at most 19 whole digits. */
  lemma NineteenDigitsAreExact(text: string)
    requires |Whole(text)| <= 19
    ensures Parse(text) == Exact(text)
  {
    hide Parse, Exact, GuardPasses, Accumulated;
    ParsesExactly(text);
    if WellFormed(text) {
      NumberFits(Whole(text));
      Pow10Monotone(|Whole(text)|, 19);
      Pow10Of19();
    }
  }

  // ----- printing, and the shortest failures

  function DigitChar(d: nat): (c: char)
    requires d < 10
    ensures IsDigit(c) && DigitOf(c) == d
  {
    "0123456789"[d]
  }

  function Decimal(n: nat): (s: string)
    ensures s != "" && AllDigits(s)
  {
    if n < 10 then [DigitChar(n)] else Decimal(n / 10) + [DigitChar(n % 10)]
  }

  lemma {:induction false} NumberOfDecimal(n: nat)
    ensures Number(Decimal(n)) == n
  {
    var s := Decimal(n);
    if n < 10 {
      assert s[..0] == "";
    } else {
      NumberOfDecimal(n / 10);
      assert s[..|s| - 1] == Decimal(n / 10);
    }
  }

  lemma NoPoint(s: string)
    requires AllDigits(s)
    ensures Whole(s) == s && Fraction(s) == ""
  {
    assert PointAt(s) == |s|;
    assert s[..|s|] == s;
  }

  lemma DigitsParse(s: string)
    requires AllDigits(s) && s != ""
    ensures WellFormed(s) && ScaledFraction(s) == 0 && Whole(s) == s
  {
    NoPoint(s);
  }

  /** Parsing what was printed gives the number, whenever its scaled value fits. */
  lemma PrintedIsParsed(n: nat)
    requires n * SCALE < U64
    ensures Parse(Decimal(n)) == Some(n * SCALE)
  {
    hide Accumulated, Number, GuardPasses, ScaledFraction, Decimal, WellFormed;
    var s := Decimal(n);
    DigitsParse(s);
    NumberOfDecimal(n);
    ParsesExactly(s);
  }

  /** 18446744073709551616 to 18446744073709551619 are accepted as 0 to 3. */
  lemma WrapIsAccepted(d: nat)
    requires 6 <= d <= 9
    ensures var text := Decimal(U64_MAX / 10) + [DigitChar(d)];
            Parse(text) == Some((d - 6) * SCALE) && Exact(text) == None
  {
    hide Decimal, ScaledFraction, GuardPasses, WellFormed, Number, Accumulated, Whole, DigitChar;
    var text := Decimal(U64_MAX / 10) + [DigitChar(d)];
    DigitsParse(text);
    WrapAccumulates(d);
    LargeWholeOverflows(Number(text), 0);
  }

  lemma WrapAccumulates(d: nat)
    requires 6 <= d <= 9
    ensures var text := Decimal(U64_MAX / 10) + [DigitChar(d)];
            Number(text) == 10 * (U64_MAX / 10) + d && Accumulated(text) == Some(d - 6)
  {
    hide Decimal, GuardPasses, DigitChar, DigitOf, Number, Accumulated;
    var s := Decimal(U64_MAX / 10);
    NumberOfDecimal(U64_MAX / 10);
    AccumulatesExactly(s);
    OneMoreDigit(s, DigitChar(d));
  }

  lemma OneMoreDigit(s: string, c: char)
    requires AllDigits(s) && IsDigit(c) && Accumulated(s).Some? && Accumulated(s).value <= U64_MAX / 10
    ensures AllDigits(s + [c]) && Number(s + [c]) == 10 * Number(s) + DigitOf(c)
    ensures Accumulated(s + [c]) == Some((Accumulated(s).value * 10 + DigitOf(c)) % U64)
  {
    assert (s + [c])[..|s|] == s;
  }

  // ----- what the parsed value means

  /** Whole digits, and possibly a point and at most eight fraction digits. */
  ghost predicate IsDecimal(text: string, w: string, f: string) {
    && w != "" && AllDigits(w) && AllDigits(f) && |f| <= 8
    && (text == w + "." + f || (text == w && f == ""))
  }

  lemma PartsOfDecimal(text: string, w: string, f: string)
    requires IsDecimal(text, w, f)
    ensures WellFormed(text) && Whole(text) == w && Fraction(text) == f
  {
    assert forall i :: 0 <= i < |w| ==> text[i] == w[i];
    assert |w| < |text| ==> text[|w|] == '.';
    assert PointAt(text) == |w|;
  }

  /** The texts the parser looks into are exactly those of the form above, each with one reading. */
  lemma WellFormedIsDecimal(text: string)
    ensures WellFormed(text) <==> exists w, f :: IsDecimal(text, w, f)
  {
    if WellFormed(text) {
      assert text == Whole(text) + "." + Fraction(text) || (text == Whole(text) && Fraction(text) == "");
      assert IsDecimal(text, Whole(text), Fraction(text));
    }
    if w, f :| IsDecimal(text, w, f) { PartsOfDecimal(text, w, f); }
  }

  lemma OneMorePower(n: nat, m: nat, p: nat, d: nat)
    ensures 10 * (n * p + m) + d == n * (10 * p) + (10 * m + d)
  {
  }

  lemma {:induction false} NumberConcat(a: string, b: string)
    requires AllDigits(a) && AllDigits(b)
    ensures AllDigits(a + b) && Number(a + b) == Number(a) * Pow10(|b|) + Number(b)
  {
    if b == "" {
      assert a + b == a;
    } else {
      var init, c := b[..|b| - 1], b[|b| - 1];
      assert (a + b)[..|a + b| - 1] == a + init && (a + b)[|a + b| - 1] == c;
      assert Pow10(|b|) == 10 * Pow10(|init|);
      hide Number, Pow10, DigitOf;
      NumberConcat(a, init);
      NumberStep(a + b);
      NumberStep(b);
      OneMorePower(Number(a), Number(init), Pow10(|init|), DigitOf(c));
    }
  }

  /** Padding: the scaled value times the fraction's own scale is all the digits, point removed, times 10^8. */
  lemma PaddingScales(w: string, f: string)
    requires AllDigits(w) && AllDigits(f) && |f| <= 8
    ensures AllDigits(w + f)
    ensures (Number(w) * SCALE + Number(f) * Pow10(8 - |f|)) * Pow10(|f|) == Number(w + f) * SCALE
  {
    hide Number, Pow10;
    NumberConcat(w, f);
    var n, m, k := Number(w), Number(f), |f|;
    Pow10Splits(8 - k, k);
    Pow10Of8();
    var p, q := Pow10(8 - k), Pow10(k);
    assert m * p * q == m * (p * q) == m * SCALE;
    assert n * SCALE * q == n * q * SCALE;
    assert (n * SCALE + m * p) * q == n * SCALE * q + m * p * q;
    assert (n * q + m) * SCALE == n * q * SCALE + m * SCALE;
  }

  lemma {:induction false} SameOrder(x: nat, y: nat, m: nat)
    requires m >= 1
    ensures x < y <==> x * m < y * m
  {
    if x < y {
      Below(x, y, m);
    } else {
      assert (x - y) * m >= 0;
    }
  }

  /** The exact value is the decimal times 10^8: with k fraction digits, the digits without the point over 10^k. */
  lemma ExactMeans(text: string, w: string, f: string)
    requires IsDecimal(text, w, f)
    ensures AllDigits(w + f)
    ensures Exact(text).Some? <==> Number(w + f) * SCALE < U64 * Pow10(|f|)
    ensures Exact(text).Some? ==> Exact(text).value * Pow10(|f|) == Number(w + f) * SCALE
  {
    hide Number, Pow10, WellFormed, Whole, Fraction;
    PartsOfDecimal(text, w, f);
    PaddingScales(w, f);
    SameOrder(Number(w) * SCALE + Number(f) * Pow10(8 - |f|), U64, Pow10(|f|));
  }

  /** What the parser returns: nothing for a text of another form, and for a decimal whose whole part fits 64 bits
      its value times 10^8, or nothing when that does not fit. */
  lemma ParseMeans(text: string)
    ensures (forall w, f :: !IsDecimal(text, w, f)) ==> Parse(text) == None
    ensures forall w, f :: IsDecimal(text, w, f) && Number(w) < U64 ==>
              && AllDigits(w + f)
              && (Parse(text).Some? <==> Number(w + f) * SCALE < U64 * Pow10(|f|))
              && (Parse(text).Some? ==> Parse(text).value * Pow10(|f|) == Number(w + f) * SCALE)
  {
    WellFormedIsDecimal(text);
    forall w, f | IsDecimal(text, w, f) && Number(w) < U64
      ensures AllDigits(w + f)
      ensures Parse(text).Some? <==> Number(w + f) * SCALE < U64 * Pow10(|f|)
      ensures Parse(text).Some? ==> Parse(text).value * Pow10(|f|) == Number(w + f) * SCALE
    {
      hide Number, Pow10, Parse, Exact, IsDecimal, GuardPasses;
      ExactMeans(text, w, f);
      PartsOfDecimal(text, w, f);
      ParsesExactly(text);
    }
  }

  /** Exactly `k` digits. */
  function Digits(n: nat, k: nat): (s: string)
    ensures |s| == k && AllDigits(s)
  {
    if k == 0 then "" else Digits(n / 10, k - 1) + [DigitChar(n % 10)]
  }

  lemma {:induction false} NumberOfDigits(n: nat, k: nat)
    requires n < Pow10(k)
    ensures Number(Digits(n, k)) == n
  {
    if k == 0 {
    } else {
      NumberOfDigits(n / 10, k - 1);
      var s := Digits(n, k);
      assert s[..|s| - 1] == Digits(n / 10, k - 1);
    }
  }

  /** n / 10^8 with eight fraction digits. */
  function FixedText(n: nat): string {
    Decimal(n / SCALE) + "." + Digits(n % SCALE, 8)
  }

  /** Every 64-bit count of 1e-8 survives printing and parsing. */
  lemma FixedRoundTrip(n: Word)
    ensures Parse(FixedText(n)) == Some(n)
  {
    hide Number, Pow10, Decimal, Digits, WellFormed, Whole, Fraction, Accumulated, GuardPasses;
    var text, w, f := FixedText(n), Decimal(n / SCALE), Digits(n % SCALE, 8);
    PartsOfDecimal(text, w, f);
    Pow10Of8();
    NumberOfDecimal(n / SCALE);
    NumberOfDigits(n % SCALE, 8);
    assert Pow10(8 - |f|) == 1 by { Pow10Of0(); }
    assert Exact(text) == Some(n);
    ParsesExactly(text);
  }

  lemma Pow10Of0()
    ensures Pow10(0) == 1
  {
  }
}
