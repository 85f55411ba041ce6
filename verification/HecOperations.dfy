/**
  * app/admin/hec-operations.tsx: operational durations as text, and the fixed histograms whose
  * buckets are named by their upper bounds.
  */
module HecOperations {
  import opened Wrappers
  import opened JsText

  const DURATION_MAX_SECONDS: nat := 315_576_000_000
  const NANOS_DIGITS: nat := 9

  datatype Duration = Duration(seconds: nat, nanos: nat)

  predicate IsOperationalDuration(d: Duration) {
    d.seconds <= DURATION_MAX_SECONDS && d.nanos <= 999_999_999
  }

  // ---------- Fractions of a second ----------

  /** `padStart(9, "0")`. */
  function PadStart(t: Text): Text {
    if |t| >= NANOS_DIGITS then t else Zeros(NANOS_DIGITS - |t|) + t
  }

  /** `replace(/0+$/, "")`. */
  function StripZeros(t: Text): Text {
    if t != [] && t[|t| - 1] == ZERO then StripZeros(t[..|t| - 1]) else t
  }

  function Fraction(nanos: nat): Text {
    StripZeros(PadStart(Decimal(nanos)))
  }

  lemma {:induction false} StripSplits(t: Text) returns (k: nat)
    requires AllDigits(t)
    ensures AllDigits(StripZeros(t)) && t == StripZeros(t) + Zeros(k)
  {
    if t != [] && t[|t| - 1] == ZERO {
      k := StripSplits(t[..|t| - 1]);
      assert Zeros(k + 1) == Zeros(k) + [ZERO];
      assert t == t[..|t| - 1] + [ZERO];
      k := k + 1;
    } else {
      k := 0;
      assert t + Zeros(0) == t;
    }
  }

  /** The digits after the point denote the nanoseconds exactly, as billionths of a second. */
  lemma FractionDenotes(nanos: nat)
    requires nanos <= 999_999_999
    ensures AllDigits(Fraction(nanos)) && |Fraction(nanos)| <= NANOS_DIGITS
    ensures DigitsValue(Fraction(nanos)) * Pow10(NANOS_DIGITS - |Fraction(nanos)|) == nanos
  {
    BillionIsPow10();
    DecimalFits(nanos, NANOS_DIGITS);
    var d := Decimal(nanos);
    var padded := PadStart(d);
    DecimalReadsBack(nanos);
    PaddedKeepsValue(d);
    var k := StripSplits(padded);
    StrippedValue(Fraction(nanos), k);
    assert |Zeros(k)| == k;
  }

  lemma BillionIsPow10()
    ensures Pow10(9) == 1_000_000_000
  {
  }

  lemma PaddedKeepsValue(d: Text)
    requires AllDigits(d) && |d| <= NANOS_DIGITS
    ensures AllDigits(PadStart(d)) && |PadStart(d)| == NANOS_DIGITS && DigitsValue(PadStart(d)) == DigitsValue(d)
  {
    var z := Zeros(NANOS_DIGITS - |d|);
    ZerosValue(NANOS_DIGITS - |d|);
    PaddedValue(z, d, []);
    assert z + d + [] == z + d;
    assert Zeros(0) + d == d;
    assert Pow10(0) == 1;
  }

  lemma StrippedValue(t: Text, k: nat)
    requires AllDigits(t)
    ensures AllDigits(t + Zeros(k)) && DigitsValue(t + Zeros(k)) == DigitsValue(t) * Pow10(k)
  {
    DigitsValueConcat(t, Zeros(k));
    ZerosValue(k);
  }

  // ---------- Durations ----------

  /** `toLocaleString` of a number of seconds: the locale's own digits, group sizes and separators. */
  type Locale = nat -> Text

  function FractionTail(nanos: nat): Text {
    if nanos == 0 then [] else [DOT] + Fraction(nanos)
  }

  function NumberText(d: Duration, locale: Locale): Text {
    locale(d.seconds) + FractionTail(d.nanos)
  }

  function FormatDuration(duration: Option<Duration>, locale: Locale): Text {
    match duration
    case None => Ascii("Not reported")
    case Some(d) => NumberText(d, locale) + Ascii(" seconds")
  }

  predicate Validated(d: Option<Duration>) {
    d.Some? ==> IsOperationalDuration(d.value)
  }

  /** The rendered text tells any two validated durations apart. */
  ghost predicate TextDetermines(locale: Locale) {
    forall c, d | Validated(c) && Validated(d) && FormatDuration(c, locale) == FormatDuration(d, locale) :: c == d
  }

  /** The locale writes different numbers of seconds differently. */
  ghost predicate TellsApart(locale: Locale) {
    forall a: nat, b: nat | a <= DURATION_MAX_SECONDS && b <= DURATION_MAX_SECONDS && locale(a) == locale(b) :: a == b
  }

  /** A whole number of seconds is written like another one with a fraction behind a point. */
  predicate LooksFractional(locale: Locale, a: nat, b: nat, nanos: nat) {
    0 < nanos <= 999_999_999 && locale(a) == locale(b) + [DOT] + Fraction(nanos)
  }

  ghost predicate SomeLooksFractional(locale: Locale) {
    exists a: nat, b: nat, nanos: nat ::
      a <= DURATION_MAX_SECONDS && b <= DURATION_MAX_SECONDS && LooksFractional(locale, a, b, nanos)
  }

  /** A text splits in one way before its last run of digits. */
  lemma SplitAtLastNonDigit(p: Text, u: CodeUnit, f: Text, q: Text, v: CodeUnit, g: Text)
    requires p + [u] + f == q + [v] + g
    requires !IsDigit(u) && !IsDigit(v) && AllDigits(f) && AllDigits(g)
    ensures p == q && u == v && f == g
  {
    var x, y := p + [u] + f, q + [v] + g;
    assert x[|p|] == u && forall i | |p| < i < |x| :: IsDigit(x[i]);
    assert y[|q|] == v && forall i | |q| < i < |y| :: IsDigit(y[i]);
    assert |p| == |q|;
    assert p == x[..|p|] && q == y[..|q|];
    assert f == x[|p| + 1..] && g == y[|q| + 1..];
  }

  lemma FractionInjective(m: nat, n: nat)
    requires m <= 999_999_999 && n <= 999_999_999 && Fraction(m) == Fraction(n)
    ensures m == n
  {
    FractionDenotes(m);
    FractionDenotes(n);
  }

  /** In such a locale the number text determines seconds and nanoseconds. */
  lemma NumberTextInjective(c: Duration, d: Duration, locale: Locale)
    requires IsOperationalDuration(c) && IsOperationalDuration(d)
    requires TellsApart(locale) && !SomeLooksFractional(locale)
    requires NumberText(c, locale) == NumberText(d, locale)
    ensures c == d
  {
    hide Fraction;
    var x, y := locale(c.seconds), locale(d.seconds);
    assert x + [] == x && y + [] == y;
    if c.nanos != 0 && d.nanos != 0 {
      FractionDenotes(c.nanos);
      FractionDenotes(d.nanos);
      assert x + FractionTail(c.nanos) == x + [DOT] + Fraction(c.nanos);
      assert y + FractionTail(d.nanos) == y + [DOT] + Fraction(d.nanos);
      SplitAtLastNonDigit(x, DOT, Fraction(c.nanos), y, DOT, Fraction(d.nanos));
      FractionInjective(c.nanos, d.nanos);
    } else if c.nanos != 0 {
      NotFractional(locale, d.seconds, c.seconds, c.nanos);
    } else if d.nanos != 0 {
      NotFractional(locale, c.seconds, d.seconds, d.nanos);
    }
  }

  lemma NotFractional(locale: Locale, a: nat, b: nat, nanos: nat)
    requires !SomeLooksFractional(locale)
    requires a <= DURATION_MAX_SECONDS && b <= DURATION_MAX_SECONDS && 0 < nanos <= 999_999_999
    ensures locale(a) + [] != locale(b) + ([DOT] + Fraction(nanos))
  {
    assert !LooksFractional(locale, a, b, nanos);
    assert locale(a) + [] == locale(a);
    assert locale(b) + ([DOT] + Fraction(nanos)) == locale(b) + [DOT] + Fraction(nanos);
  }

  lemma DropSuffix(a: Text, b: Text, suffix: Text)
    requires a + suffix == b + suffix
    ensures a == b
  {
    assert |a| == |b|;
    assert a == (a + suffix)[..|a|] && b == (b + suffix)[..|b|];
  }

  /** One ends in "s", the other in "d". */
  lemma ReportedIsNotMissing(d: Duration, locale: Locale)
    ensures FormatDuration(Some(d), locale) != FormatDuration(None, locale)
  {
    var t, suffix := FormatDuration(Some(d), locale), Ascii(" seconds");
    assert t[|t| - 1] == suffix[7] == 115;
    assert Ascii("Not reported")[11] == 100;
  }

  lemma DeterminingLocale(locale: Locale, c: Option<Duration>, d: Option<Duration>)
    requires TellsApart(locale) && !SomeLooksFractional(locale)
    requires Validated(c) && Validated(d) && FormatDuration(c, locale) == FormatDuration(d, locale)
    ensures c == d
  {
    hide NumberText, TellsApart, SomeLooksFractional;
    if c.Some? && d.Some? {
      DropSuffix(NumberText(c.value, locale), NumberText(d.value, locale), Ascii(" seconds"));
      NumberTextInjective(c.value, d.value, locale);
    } else if c.Some? {
      ReportedIsNotMissing(c.value, locale);
    } else if d.Some? {
      ReportedIsNotMissing(d.value, locale);
    }
  }

  lemma FractionalCollides(locale: Locale, a: nat, b: nat, nanos: nat)
    requires LooksFractional(locale, a, b, nanos)
    ensures FormatDuration(Some(Duration(a, 0)), locale) == FormatDuration(Some(Duration(b, nanos)), locale)
  {
  }

  /**
    * In any locale the text determines every validated duration if and only if the locale writes
    * different seconds differently and no whole number like another one with a fraction.
    */
  lemma DurationTextDetermines(locale: Locale)
    ensures TextDetermines(locale) <==> TellsApart(locale) && !SomeLooksFractional(locale)
  {
    if TextDetermines(locale) {
      forall a: nat, b: nat | a <= DURATION_MAX_SECONDS && b <= DURATION_MAX_SECONDS && locale(a) == locale(b)
        ensures a == b
      {
        assert FormatDuration(Some(Duration(a, 0)), locale) == FormatDuration(Some(Duration(b, 0)), locale);
      }
      forall a: nat, b: nat, nanos: nat | a <= DURATION_MAX_SECONDS && b <= DURATION_MAX_SECONDS
        ensures !LooksFractional(locale, a, b, nanos)
      {
        if LooksFractional(locale, a, b, nanos) {
          FractionalCollides(locale, a, b, nanos);
        }
      }
    } else {
      hide FormatDuration, TellsApart, SomeLooksFractional;
      if TellsApart(locale) && !SomeLooksFractional(locale) {
        forall c, d | Validated(c) && Validated(d) && FormatDuration(c, locale) == FormatDuration(d, locale)
          ensures c == d
        {
          DeterminingLocale(locale, c, d);
        }
      }
    }
  }

  /** So it does whenever the locale writes whole numbers without a point. */
  lemma PointFreeLocaleDetermines(locale: Locale)
    requires TellsApart(locale)
    requires forall n: nat | n <= 315_576_000_000 :: DOT !in locale(n)
    ensures TextDetermines(locale)
  {
    forall a: nat, b: nat, nanos: nat | a <= DURATION_MAX_SECONDS && b <= DURATION_MAX_SECONDS
      ensures !LooksFractional(locale, a, b, nanos)
    {
      var t := locale(b) + [DOT] + Fraction(nanos);
      assert t[|locale(b)|] == DOT;
    }
    DurationTextDetermines(locale);
  }

  // ---------- Groups of three ----------

  /** Decimal digits in groups of three, with any separator. */
  function Grouped(separator: Text): Locale {
    n => Group(Decimal(n), separator)
  }

  predicate HasNoDigit(separator: Text) {
    forall u | u in separator :: !IsDigit(u)
  }

  function OnlyDigits(t: Text): Text {
    if t == [] then []
    else if IsDigit(t[0]) then [t[0]] + OnlyDigits(t[1..])
    else OnlyDigits(t[1..])
  }

  lemma {:induction false} OnlyDigitsConcat(a: Text, b: Text)
    ensures OnlyDigits(a + b) == OnlyDigits(a) + OnlyDigits(b)
  {
    if a == [] {
      assert a + b == b;
    } else {
      assert (a + b)[1..] == a[1..] + b;
      OnlyDigitsConcat(a[1..], b);
    }
  }

  lemma {:induction false} OnlyDigitsOf(t: Text)
    ensures AllDigits(t) ==> OnlyDigits(t) == t
    ensures HasNoDigit(t) ==> OnlyDigits(t) == []
  {
    if t != [] {
      OnlyDigitsOf(t[1..]);
      assert t[0] in t && forall u | u in t[1..] :: u in t;
    }
  }

  lemma {:induction false} GroupKeepsDigits(digits: Text, separator: Text)
    requires AllDigits(digits) && HasNoDigit(separator)
    ensures OnlyDigits(Group(digits, separator)) == digits
  {
    if |digits| <= 3 {
      OnlyDigitsOf(digits);
    } else {
      var front, back := digits[..|digits| - 3], digits[|digits| - 3..];
      GroupKeepsDigits(front, separator);
      OnlyDigitsConcat(Group(front, separator) + separator, back);
      OnlyDigitsConcat(Group(front, separator), separator);
      OnlyDigitsOf(separator);
      OnlyDigitsOf(back);
      assert front + [] + back == digits;
    }
  }

  lemma GroupedTellsApart(separator: Text)
    requires HasNoDigit(separator)
    ensures TellsApart(Grouped(separator))
  {
    forall a: nat, b: nat | Grouped(separator)(a) == Grouped(separator)(b) ensures a == b {
      GroupKeepsDigits(Decimal(a), separator);
      GroupKeepsDigits(Decimal(b), separator);
      DecimalInjective(a, b);
    }
  }

  /** The last separator of a grouped number stands before three digits and behind another digit. */
  lemma GroupedIsNotFractional(digits: Text, separator: Text, whole: Text, fraction: Text)
    requires AllDigits(digits) && HasNoDigit(separator) && separator != [DOT]
    requires whole != [] && IsDigit(whole[|whole| - 1]) && AllDigits(fraction)
    ensures Group(digits, separator) != whole + [DOT] + fraction
  {
    if |digits| <= 3 || separator == [] {
      if separator == [] {
        GroupByNothing(digits);
      }
      PlainIsNotFractional(digits, whole, fraction);
    } else {
      var front, back := digits[..|digits| - 3], digits[|digits| - 3..];
      LastSeparatorIsNotThePoint(Group(front, separator), separator, back, whole, fraction);
    }
  }

  lemma PlainIsNotFractional(digits: Text, whole: Text, fraction: Text)
    requires AllDigits(digits)
    ensures digits != whole + [DOT] + fraction
  {
    assert (whole + [DOT] + fraction)[|whole|] == DOT;
  }

  lemma LastSeparatorIsNotThePoint(front: Text, separator: Text, back: Text, whole: Text, fraction: Text)
    requires HasNoDigit(separator) && separator != [] && separator != [DOT]
    requires whole != [] && IsDigit(whole[|whole| - 1]) && AllDigits(back) && AllDigits(fraction)
    ensures front + separator + back != whole + [DOT] + fraction
  {
    var n := |separator| - 1;
    assert separator == separator[..n] + [separator[n]] && separator[n] in separator;
    assert front + separator + back == (front + separator[..n]) + [separator[n]] + back;
    var before := front + separator[..n];
    assert n > 0 ==> separator[n - 1] in separator && before[|before| - 1] == separator[n - 1];
    if front + separator + back == whole + [DOT] + fraction {
      SplitAtLastNonDigit(before, separator[n], back, whole, DOT, fraction);
      assert false;
    }
  }

  lemma GroupedLooksWhole(separator: Text, a: nat, b: nat, nanos: nat)
    requires HasNoDigit(separator) && separator != [DOT] && 0 < nanos <= 999_999_999
    ensures !LooksFractional(Grouped(separator), a, b, nanos)
  {
    hide Group, Decimal, Fraction;
    FractionDenotes(nanos);
    GroupUnits(Decimal(b), separator);
    GroupedIsNotFractional(Decimal(a), separator, Group(Decimal(b), separator), Fraction(nanos));
  }

  /** With groups of three the text determines every duration unless a single point separates them. */
  lemma GroupedTextDetermines(separator: Text)
    requires HasNoDigit(separator)
    ensures TextDetermines(Grouped(separator)) <==> separator != [DOT]
  {
    hide FormatDuration, Grouped, LooksFractional;
    if separator == [DOT] {
      PointGroupingIsAmbiguous();
      assert Validated(Some(Duration(1234, 0))) && Validated(Some(Duration(1, 234_000_000)));
    } else {
      GroupedTellsApart(separator);
      forall a: nat, b: nat, nanos: nat ensures !LooksFractional(Grouped(separator), a, b, nanos) {
        if 0 < nanos <= 999_999_999 {
          GroupedLooksWhole(separator, a, b, nanos);
        } else {
          OutOfRange(Grouped(separator), a, b, nanos);
        }
      }
      DurationTextDetermines(Grouped(separator));
    }
  }

  lemma OutOfRange(locale: Locale, a: nat, b: nat, nanos: nat)
    requires nanos == 0 || nanos > 999_999_999
    ensures !LooksFractional(locale, a, b, nanos)
  {
  }

  /** A locale that groups with a point writes 1234 seconds and 1.234 seconds alike. */
  lemma PointGroupingIsAmbiguous()
    ensures FormatDuration(Some(Duration(1234, 0)), Grouped([DOT]))
         == FormatDuration(Some(Duration(1, 234_000_000)), Grouped([DOT]))
  {
    assert Decimal(1) == [49];
    assert Decimal(12) == [49, 50];
    assert Decimal(123) == [49, 50, 51];
    assert Decimal(1234) == [49, 50, 51, 52];
    assert Decimal(1234)[..1] == [49] && Decimal(1234)[1..] == [50, 51, 52];
    assert Group(Decimal(1234), [DOT]) == [49, DOT, 50, 51, 52];
    FractionOf234();
    assert [49] + ([DOT] + [50, 51, 52]) == [49, DOT, 50, 51, 52] + [];
  }

  lemma FractionOf234()
    ensures Fraction(234_000_000) == [50, 51, 52]
  {
    var d: Text := [50, 51, 52];
    DecimalOf234();
    var t := d + Zeros(6);
    assert Decimal(234_000_000) == t && |t| == 9;
    StripAppended(d, 6);
  }

  lemma DecimalOf234()
    ensures Decimal(234_000_000) == [50, 51, 52] + Zeros(6)
  {
    assert Decimal(2) == [50];
    assert Decimal(23) == [50, 51];
    assert Decimal(234) == [50, 51, 52];
    DecimalTimesTen(234, 6);
    assert Pow10(3) == 1000;
    Pow10Adds(3, 3);
  }

  lemma DecimalOfTenfold(m: nat)
    requires m > 0
    ensures Decimal(10 * m) == Decimal(m) + [ZERO]
  {
  }

  lemma TenfoldOfProduct(n: nat, p: nat)
    requires n > 0 && p > 0
    ensures n * (10 * p) == 10 * (n * p) && n * p > 0
  {
  }

  lemma {:induction false} DecimalTimesTen(n: nat, k: nat)
    requires n > 0
    ensures Decimal(n * Pow10(k)) == Decimal(n) + Zeros(k)
  {
    if k == 0 {
      assert Decimal(n) + Zeros(0) == Decimal(n);
    } else {
      DecimalTimesTen(n, k - 1);
      assert Pow10(k) == 10 * Pow10(k - 1) && Zeros(k) == Zeros(k - 1) + [ZERO];
      hide Decimal, Pow10, Zeros;
      TenfoldOfProduct(n, Pow10(k - 1));
      DecimalOfTenfold(n * Pow10(k - 1));
    }
  }

  lemma {:induction false} StripAppended(t: Text, k: nat)
    requires t != [] && t[|t| - 1] != ZERO
    ensures StripZeros(t + Zeros(k)) == t
  {
    if k == 0 {
      assert t + Zeros(0) == t;
    } else {
      var u := t + Zeros(k);
      assert u[|u| - 1] == ZERO && u[..|u| - 1] == t + Zeros(k - 1);
      StripAppended(t, k - 1);
    }
  }

  // ---------- Histograms ----------

  const UINT64_MAX: nat := 0xFFFF_FFFF_FFFF_FFFF

  function ShapeUpperBounds(): seq<nat> {
    [1, 10, 64, 100, 500, 1_000, 2_500, 5_000, 10_000, 16_384, 32_768, 50_000, 65_536]
  }

  function ByteUpperBounds(): seq<nat> {
    [1_024, 4_096, 16_384, 65_536, 262_144, 1_048_576, 4_194_304,
     8_388_608, 16_777_216, 25_165_824, 33_554_432, 50_331_648, 67_108_864]
  }

  function LatencyUpperBoundsMicroseconds(): seq<nat> {
    [1_000, 10_000, 50_000, 200_000, 1_000_000, 5_000_000, 30_000_000]
  }

  predicate Ascending(bounds: seq<nat>) {
    bounds != [] && forall i, j | 0 <= i < j < |bounds| :: bounds[i] < bounds[j]
  }

  lemma TablesAscend()
    ensures Ascending(ShapeUpperBounds()) && Ascending(ByteUpperBounds())
    ensures Ascending(LatencyUpperBoundsMicroseconds())
  {
  }

  datatype Histogram = Histogram(upperBounds: seq<int>, bucketCounts: seq<int>, count: int, sum: int, max: int)

  predicate IsUint64(n: int) {
    0 <= n <= UINT64_MAX
  }

  predicate SameUint64Values(actual: seq<int>, expected: seq<nat>) {
    |actual| == |expected| && forall i | 0 <= i < |actual| :: IsUint64(actual[i]) && actual[i] == expected[i]
  }

  predicate ValidUint64Values(values: seq<int>, expectedLength: nat) {
    |values| == expectedLength && forall i | 0 <= i < |values| :: IsUint64(values[i])
  }

  predicate ValidHistogram(histogram: Option<Histogram>, bounds: seq<nat>) {
    && histogram.Some?
    && SameUint64Values(histogram.value.upperBounds, bounds)
    && ValidUint64Values(histogram.value.bucketCounts, |bounds| + 1)
    && IsUint64(histogram.value.count) && IsUint64(histogram.value.sum) && IsUint64(histogram.value.max)
  }

  /** A histogram is valid if and only if it has the table's bounds, a bucket more, and 64-bit numbers only. */
  lemma ValidHistogramIff(histogram: Histogram, bounds: seq<nat>)
    requires forall i | 0 <= i < |bounds| :: bounds[i] <= 67_108_864
    ensures !ValidHistogram(None, bounds)
    ensures ValidHistogram(Some(histogram), bounds) <==>
      && histogram.upperBounds == bounds && |histogram.bucketCounts| == |bounds| + 1
      && (forall i | 0 <= i <= |bounds| :: 0 <= histogram.bucketCounts[i] <= 18_446_744_073_709_551_615)
      && 0 <= histogram.count <= 18_446_744_073_709_551_615
      && 0 <= histogram.sum <= 18_446_744_073_709_551_615
      && 0 <= histogram.max <= 18_446_744_073_709_551_615
  {
    assert SameUint64Values(histogram.upperBounds, bounds) <==> histogram.upperBounds == bounds;
  }

  /** What a bucket's label says of the values it counts. */
  datatype Label = ZeroThrough(bound: nat) | MoreThanThrough(lower: nat, bound: nat) | MoreThan(lower: nat)

  function BucketLabel(bounds: seq<nat>, index: nat): Label
    requires bounds != []
  {
    if index >= |bounds| then MoreThan(bounds[|bounds| - 1])
    else if index == 0 then ZeroThrough(bounds[0])
    else MoreThanThrough(bounds[index - 1], bounds[index])
  }

  predicate Names(bucket: Label, value: nat) {
    match bucket
    case ZeroThrough(bound) => value <= bound
    case MoreThanThrough(lower, bound) => lower < value <= bound
    case MoreThan(lower) => value > lower
  }

  /** How many bounds lie below a value. */
  function BoundsBelow(bounds: seq<nat>, value: nat): (n: nat)
    ensures n <= |bounds|
  {
    if bounds == [] then 0
    else BoundsBelow(bounds[..|bounds| - 1], value) + (if bounds[|bounds| - 1] < value then 1 else 0)
  }

  lemma {:induction false} BoundsBelowIs(bounds: seq<nat>, value: nat)
    requires forall i, j | 0 <= i < j < |bounds| :: bounds[i] < bounds[j]
    ensures forall i | 0 <= i < |bounds| :: bounds[i] < value <==> i < BoundsBelow(bounds, value)
  {
    if bounds != [] {
      var n := |bounds| - 1;
      var front := bounds[..n];
      BoundsBelowIs(front, value);
      forall i | 0 <= i < n ensures bounds[i] < value <==> i < BoundsBelow(front, value) {
        assert front[i] == bounds[i];
      }
      if bounds[n] < value && n > 0 {
        assert bounds[n - 1] < value;
      }
    }
  }

  /**
    * The labels of a table partition the naturals: every value is named by exactly one of the
    * bounds-plus-one buckets that a valid histogram counts.
    */
  lemma LabelsPartition(bounds: seq<nat>, value: nat, index: nat)
    requires Ascending(bounds) && index <= |bounds|
    ensures Names(BucketLabel(bounds, index), value) <==> index == BoundsBelow(bounds, value)
  {
    BoundsBelowIs(bounds, value);
  }

  lemma ValidHistogramCountsThePartition(histogram: Histogram, bounds: seq<nat>, value: nat)
    requires Ascending(bounds) && ValidHistogram(Some(histogram), bounds)
    ensures histogram.upperBounds == bounds
    ensures var i := BoundsBelow(bounds, value);
      i < |histogram.bucketCounts| && Names(BucketLabel(bounds, i), value)
    ensures forall i: nat, j: nat | i < |histogram.bucketCounts| && j < |histogram.bucketCounts|
      && Names(BucketLabel(bounds, i), value) && Names(BucketLabel(bounds, j), value) :: i == j
  {
    forall i: nat | i <= |bounds|
      ensures Names(BucketLabel(bounds, i), value) <==> i == BoundsBelow(bounds, value)
    {
      LabelsPartition(bounds, value, i);
    }
  }
}
