/**
  * Strings as JavaScript sees them: sequences of UTF-16 code units, which may hold lone
  * surrogates. Trimming, decimal numerals, digit grouping and the code-unit order are here.
  */
module JsText {

  type CodeUnit = u: int | 0 <= u < 0x1_0000

  type Text = seq<CodeUnit>

  const ZERO: CodeUnit := 48
  const SPACE: CodeUnit := 32
  const COMMA: CodeUnit := 44
  const DOT: CodeUnit := 46
  const PLUS: CodeUnit := 43
  const MINUS: CodeUnit := 45
  const SLASH: CodeUnit := 47
  const BYTE_ORDER_MARK: CodeUnit := 0xFEFF

  /** A string literal as code units. */
  function Ascii(s: string): (t: Text)
    requires forall i | 0 <= i < |s| :: s[i] as int < 128
    ensures |t| == |s|
    ensures forall i | 0 <= i < |s| :: t[i] == s[i] as int
  {
    seq(|s|, i requires 0 <= i < |s| => s[i] as int)
  }

  // ---------- White space ----------

  /** What `trim` removes and what `\s` matches: WhiteSpace and LineTerminator of ECMA-262. */
  predicate IsSpace(u: CodeUnit) {
    || 0x09 <= u <= 0x0D || u == 0x20 || u == 0xA0 || u == 0x1680
    || 0x2000 <= u <= 0x200A || u == 0x2028 || u == 0x2029
    || u == 0x202F || u == 0x205F || u == 0x3000 || u == BYTE_ORDER_MARK
  }

  predicate AllSpace(t: Text) {
    forall i | 0 <= i < |t| :: IsSpace(t[i])
  }

  /** No white space at either edge. */
  predicate Trimmed(t: Text) {
    t == [] || (!IsSpace(t[0]) && !IsSpace(t[|t| - 1]))
  }

  function TrimStart(t: Text): Text {
    if t != [] && IsSpace(t[0]) then TrimStart(t[1..]) else t
  }

  function TrimEnd(t: Text): Text {
    if t != [] && IsSpace(t[|t| - 1]) then TrimEnd(t[..|t| - 1]) else t
  }

  function Trim(t: Text): Text {
    TrimEnd(TrimStart(t))
  }

  lemma {:induction false} TrimStartDrops(a: Text, b: Text)
    requires AllSpace(a)
    requires b == [] || !IsSpace(b[0])
    ensures TrimStart(a + b) == b
  {
    if a == [] {
      assert a + b == b;
    } else {
      assert (a + b)[1..] == a[1..] + b;
      TrimStartDrops(a[1..], b);
    }
  }

  lemma {:induction false} TrimEndDrops(a: Text, b: Text)
    requires AllSpace(b)
    requires a == [] || !IsSpace(a[|a| - 1])
    ensures TrimEnd(a + b) == a
  {
    if b == [] {
      assert a + b == a;
    } else {
      assert (a + b)[..|a + b| - 1] == a + b[..|b| - 1];
      TrimEndDrops(a, b[..|b| - 1]);
    }
  }

  lemma {:induction false} TrimStartSplits(t: Text) returns (a: Text)
    ensures AllSpace(a) && t == a + TrimStart(t)
    ensures TrimStart(t) == [] || !IsSpace(TrimStart(t)[0])
  {
    if t != [] && IsSpace(t[0]) {
      a := TrimStartSplits(t[1..]);
      a := [t[0]] + a;
    } else {
      a := [];
    }
  }

  lemma {:induction false} TrimEndSplits(t: Text) returns (b: Text)
    ensures AllSpace(b) && t == TrimEnd(t) + b
    ensures TrimEnd(t) == [] || !IsSpace(TrimEnd(t)[|TrimEnd(t)| - 1])
  {
    if t != [] && IsSpace(t[|t| - 1]) {
      b := TrimEndSplits(t[..|t| - 1]);
      b := b + [t[|t| - 1]];
    } else {
      b := [];
    }
  }

  /** `Trim` cuts a text into white space, a trimmed middle, and white space. */
  lemma TrimSplits(t: Text) returns (a: Text, b: Text)
    ensures AllSpace(a) && AllSpace(b) && Trimmed(Trim(t))
    ensures t == a + Trim(t) + b
  {
    a := TrimStartSplits(t);
    b := TrimEndSplits(TrimStart(t));
  }

  /** The middle of any such cut is what `Trim` returns. */
  lemma TrimUnique(a: Text, m: Text, b: Text)
    requires AllSpace(a) && AllSpace(b) && Trimmed(m)
    ensures Trim(a + m + b) == m
  {
    if m == [] {
      assert a + m + b == (a + b) + [];
      TrimStartDrops(a + b, []);
    } else {
      assert a + m + b == a + (m + b);
      TrimStartDrops(a, m + b);
      TrimEndDrops(m, b);
    }
  }

  lemma TrimKeepsTrimmed(t: Text)
    requires Trimmed(t)
    ensures Trim(t) == t
  {
  }

  lemma TrimEmpty(t: Text)
    ensures Trim(t) == [] <==> AllSpace(t)
  {
    var a, b := TrimSplits(t);
    if AllSpace(t) {
      TrimUnique(t, [], []);
      assert t + [] + [] == t;
    }
  }

  // ---------- Decimal numerals ----------

  predicate IsDigit(u: CodeUnit) {
    ZERO <= u <= ZERO + 9
  }

  predicate AllDigits(t: Text) {
    forall i | 0 <= i < |t| :: IsDigit(t[i])
  }

  function Pow10(k: nat): (p: nat)
    ensures p > 0
  {
    if k == 0 then 1 else 10 * Pow10(k - 1)
  }

  /** The number a run of decimal digits denotes; the empty run denotes zero. */
  function DigitsValue(t: Text): (n: nat)
    requires AllDigits(t)
  {
    if t == [] then 0 else DigitsValue(t[..|t| - 1]) * 10 + (t[|t| - 1] - ZERO)
  }

  /** `n.toString()` for a natural number. */
  function Decimal(n: nat): (t: Text)
    ensures t != [] && AllDigits(t)
  {
    if n < 10 then [ZERO + n] else Decimal(n / 10) + [ZERO + n % 10]
  }

  lemma {:induction false} DecimalReadsBack(n: nat)
    ensures DigitsValue(Decimal(n)) == n
  {
    if n < 10 {
      assert Decimal(n)[..0] == [];
    } else {
      DecimalReadsBack(n / 10);
      assert Decimal(n)[..|Decimal(n)| - 1] == Decimal(n / 10);
    }
  }

  lemma {:induction false} DecimalHasNoPadding(n: nat)
    ensures Decimal(n)[0] == ZERO <==> n == 0
    ensures n == 0 ==> Decimal(n) == [ZERO]
  {
    if n >= 10 {
      DecimalHasNoPadding(n / 10);
      assert Decimal(n)[0] == Decimal(n / 10)[0];
    }
  }

  lemma {:induction false} DecimalFits(n: nat, k: nat)
    requires k > 0 && n < Pow10(k)
    ensures |Decimal(n)| <= k
  {
    if n >= 10 {
      assert k > 1;
      assert Pow10(k) == 10 * Pow10(k - 1);
      DecimalFits(n / 10, k - 1);
    }
  }

  lemma DecimalInjective(m: nat, n: nat)
    requires Decimal(m) == Decimal(n)
    ensures m == n
  {
    DecimalReadsBack(m);
    DecimalReadsBack(n);
  }

  lemma {:induction false} Pow10Adds(j: nat, k: nat)
    ensures Pow10(j + k) == Pow10(j) * Pow10(k)
  {
    if k > 0 {
      Pow10Adds(j, k - 1);
      assert Pow10(j + k) == 10 * Pow10(j + k - 1);
      assert 10 * (Pow10(j) * Pow10(k - 1)) == Pow10(j) * (10 * Pow10(k - 1));
    }
  }

  lemma {:induction false} DigitsValueConcat(a: Text, b: Text)
    requires AllDigits(a) && AllDigits(b)
    ensures AllDigits(a + b)
    ensures DigitsValue(a + b) == DigitsValue(a) * Pow10(|b|) + DigitsValue(b)
  {
    if b == [] {
      assert a + b == a;
    } else {
      var c := b[..|b| - 1];
      var d := b[|b| - 1] - ZERO;
      assert (a + b)[..|a + b| - 1] == a + c;
      DigitsValueConcat(a, c);
      assert DigitsValue(a + b) == (DigitsValue(a) * Pow10(|c|) + DigitsValue(c)) * 10 + d;
      ShiftDigit(DigitsValue(a), Pow10(|c|), DigitsValue(c), d);
    }
  }

  lemma ShiftDigit(n: int, p: int, m: int, d: int)
    ensures (n * p + m) * 10 + d == n * (10 * p) + (m * 10 + d)
  {
  }

  lemma {:induction false} DigitsValueBound(t: Text)
    requires AllDigits(t)
    ensures DigitsValue(t) < Pow10(|t|)
  {
    if t != [] {
      DigitsValueBound(t[..|t| - 1]);
    }
  }

  function Zeros(k: nat): (t: Text)
    ensures |t| == k && AllDigits(t)
  {
    if k == 0 then [] else Zeros(k - 1) + [ZERO]
  }

  lemma {:induction false} ZerosValue(k: nat)
    ensures DigitsValue(Zeros(k)) == 0
  {
    if k > 0 {
      ZerosValue(k - 1);
      assert Zeros(k)[..k - 1] == Zeros(k - 1);
    }
  }

  /** Zeros in front leave a value alone; zeros behind multiply it. */
  lemma PaddedValue(front: Text, t: Text, back: Text)
    requires AllDigits(front) && AllDigits(t) && AllDigits(back)
    requires DigitsValue(front) == DigitsValue(back) == 0
    ensures AllDigits(front + t + back)
    ensures DigitsValue(front + t + back) == DigitsValue(t) * Pow10(|back|)
  {
    DigitsValueConcat(front, t);
    DigitsValueConcat(front + t, back);
    var p := Pow10(|t|);
    assert 0 * p == 0;
  }

  /** Digit runs of one length are told apart by their value. */
  lemma {:induction false} DigitsInjective(a: Text, b: Text)
    requires AllDigits(a) && AllDigits(b) && |a| == |b|
    requires DigitsValue(a) == DigitsValue(b)
    ensures a == b
  {
    if a != [] {
      DigitsInjective(a[..|a| - 1], b[..|b| - 1]);
      assert a == a[..|a| - 1] + [a[|a| - 1]];
      assert b == b[..|b| - 1] + [b[|b| - 1]];
    }
  }

  // ---------- Digit grouping ----------

  /** Digits in groups of three from the right, as the rule `\B(?=(\d{3})+(?!\d))` inserts a separator. */
  function Group(digits: Text, separator: Text): Text {
    if |digits| <= 3 then digits
    else Group(digits[..|digits| - 3], separator) + separator + digits[|digits| - 3..]
  }

  /** A text without its occurrences of one code unit. */
  function Without(t: Text, u: CodeUnit): Text {
    if t == [] then []
    else if t[0] == u then Without(t[1..], u)
    else [t[0]] + Without(t[1..], u)
  }

  lemma {:induction false} WithoutConcat(a: Text, b: Text, u: CodeUnit)
    ensures Without(a + b, u) == Without(a, u) + Without(b, u)
  {
    if a == [] {
      assert a + b == b;
    } else {
      assert (a + b)[1..] == a[1..] + b;
      WithoutConcat(a[1..], b, u);
    }
  }

  lemma {:induction false} WithoutAbsent(t: Text, u: CodeUnit)
    requires u !in t
    ensures Without(t, u) == t
  {
    if t != [] {
      WithoutAbsent(t[1..], u);
    }
  }

  lemma WithoutGroupStep(grouped: Text, front: Text, back: Text, u: CodeUnit)
    requires Without(grouped, u) == front && u !in back
    ensures Without(grouped + [u] + back, u) == front + back
  {
    WithoutConcat(grouped + [u], back, u);
    WithoutConcat(grouped, [u], u);
    WithoutAbsent(back, u);
  }

  /** Grouping loses nothing: dropping the separator gives the digits back. */
  lemma {:induction false} GroupReadsBack(digits: Text, separator: CodeUnit)
    requires AllDigits(digits) && !IsDigit(separator)
    ensures Without(Group(digits, [separator]), separator) == digits
  {
    if |digits| <= 3 {
      WithoutAbsent(digits, separator);
    } else {
      var front, back := digits[..|digits| - 3], digits[|digits| - 3..];
      GroupReadsBack(front, separator);
      WithoutGroupStep(Group(front, [separator]), front, back, separator);
      assert digits == front + back;
    }
  }

  function FromRight(t: Text, i: nat): CodeUnit
    requires i < |t|
  {
    t[|t| - 1 - i]
  }

  lemma NextGroup(h: Text, separator: CodeUnit, back: Text)
    requires |back| == 3 && forall i | 0 <= i < |h| && i % 4 == 3 :: FromRight(h, i) == separator
    ensures var g := h + [separator] + back;
      forall i | 0 <= i < |g| && i % 4 == 3 :: FromRight(g, i) == separator
  {
    var g := h + [separator] + back;
    forall i | 4 <= i < |g| ensures FromRight(g, i) == FromRight(h, i - 4) {
    }
  }

  /** Counted from the right, every fourth place holds the separator, and no other is added. */
  lemma {:induction false} GroupPlaces(digits: Text, separator: CodeUnit)
    requires digits != []
    ensures var g := Group(digits, [separator]);
      && |g| == |digits| + (|digits| - 1) / 3
      && forall i | 0 <= i < |g| && i % 4 == 3 :: FromRight(g, i) == separator
  {
    if |digits| > 3 {
      var front, back := digits[..|digits| - 3], digits[|digits| - 3..];
      GroupPlaces(front, separator);
      NextGroup(Group(front, [separator]), separator, back);
      assert (|digits| - 1) / 3 == (|front| - 1) / 3 + 1;
      hide FromRight;
    }
  }

  lemma {:induction false} GroupUnits(digits: Text, separator: Text)
    requires AllDigits(digits)
    ensures forall u | u in Group(digits, separator) :: IsDigit(u) || u in separator
    ensures digits != [] ==> Group(digits, separator) != []
    ensures digits != [] ==> IsDigit(Group(digits, separator)[0])
    ensures digits != [] ==> IsDigit(Group(digits, separator)[|Group(digits, separator)| - 1])
  {
    if |digits| > 3 {
      GroupUnits(digits[..|digits| - 3], separator);
    }
  }

  lemma {:induction false} GroupByNothing(digits: Text)
    ensures Group(digits, []) == digits
  {
    if |digits| > 3 {
      GroupByNothing(digits[..|digits| - 3]);
      assert digits[..|digits| - 3] + [] + digits[|digits| - 3..] == digits;
    }
  }

  // ---------- The order of `<` and of `toSorted` ----------

  predicate Less(a: Text, b: Text) {
    b != [] && (a == [] || a[0] < b[0] || (a[0] == b[0] && Less(a[1..], b[1..])))
  }

  /** One text is below another where it first differs from it by a smaller unit, or ends. */
  predicate BelowAt(a: Text, b: Text, i: nat) {
    i <= |a| && i < |b| && (forall j | 0 <= j < i :: a[j] == b[j]) && (i == |a| || a[i] < b[i])
  }

  lemma {:induction false} LessAtDifference(a: Text, b: Text)
    ensures Less(a, b) <==> exists i: nat :: BelowAt(a, b, i)
  {
    if a == [] || b == [] || a[0] != b[0] {
      assert Less(a, b) ==> BelowAt(a, b, 0);
    } else {
      LessAtDifference(a[1..], b[1..]);
      if Less(a, b) {
        var i: nat :| BelowAt(a[1..], b[1..], i);
        assert BelowAt(a, b, i + 1);
      }
      forall i: nat | BelowAt(a, b, i) ensures Less(a, b) {
        assert BelowAt(a[1..], b[1..], i - 1);
      }
    }
  }

  lemma {:induction false} LessIrreflexive(a: Text)
    ensures !Less(a, a)
  {
    if a != [] {
      LessIrreflexive(a[1..]);
    }
  }

  lemma {:induction false} LessTrichotomy(a: Text, b: Text)
    ensures Less(a, b) || a == b || Less(b, a)
    ensures !(Less(a, b) && Less(b, a))
  {
    if a != [] && b != [] && a[0] == b[0] {
      LessTrichotomy(a[1..], b[1..]);
      assert a == [a[0]] + a[1..] && b == [b[0]] + b[1..];
    }
  }

  lemma {:induction false} LessTransitive(a: Text, b: Text, c: Text)
    requires Less(a, b) && Less(b, c)
    ensures Less(a, c)
  {
    if a != [] && a[0] == b[0] == c[0] {
      LessTransitive(a[1..], b[1..], c[1..]);
    }
  }
}
