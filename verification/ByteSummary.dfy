/**
  * lib/byte-quantity.ts, displaying: `Summarize` rounds a count to tenths of a unit, `Describe`
  * echoes it exactly.
  */
module ByteSummary {
  import opened Wrappers
  import opened JsText
  import opened Arithmetic
  import opened QuantityText
  import opened ByteQuantity

  /** The first display unit a count reaches; counts below a kibibyte stay in bytes. */
  function DisplayUnit(value: nat, units: seq<Unit>): (u: Unit)
    ensures u == Unit(Ascii("B"), 1) || (u in units && value >= u.multiplier)
  {
    if units == [] then Unit(Ascii("B"), 1)
    else if value >= units[0].multiplier then units[0]
    else DisplayUnit(value, units[1..])
  }

  function UnitOf(value: nat): (u: Unit)
    ensures u == Unit(Ascii("B"), 1) || (u in DisplayUnits() && value >= u.multiplier)
    ensures u.multiplier > 0
  {
    DisplayUnit(value, DisplayUnits())
  }

  /** The displayed magnitude in tenths of the unit; a byte count is displayed whole. */
  function Tenths(value: nat): nat {
    var m := UnitOf(value).multiplier;
    if m == 1 then value * 10 else (value * 10 + m / 2) / m
  }

  /** The number shown: its whole part grouped in threes, and a tenth when there is one. */
  function TenthsText(tenths: nat): Text {
    Group(Decimal(tenths / 10), [COMMA]) + (if tenths % 10 == 0 then [] else [DOT] + Decimal(tenths % 10))
  }

  function Summarize(bytes: int): Text {
    var value: nat := if bytes < 0 then 0 else bytes;
    var unit := UnitOf(value);
    (if unit.multiplier == 1 then Decimal(value) else TenthsText(Tenths(value))) + [SPACE] + unit.name
  }

  /** Which unit is chosen, as inequalities. */
  lemma UnitBrackets(value: nat)
    ensures var m := UnitOf(value).multiplier;
      || (m == 1 && value < KIB)
      || (m == KIB && KIB <= value < MIB)
      || (m == MIB && MIB <= value < GIB)
      || (m == GIB && GIB <= value < TIB)
      || (m == TIB && TIB <= value < PIB)
      || (m == PIB && PIB <= value)
  {
    var u := DisplayUnits();
    assert DisplayUnit(value, u) == if value >= PIB then u[0] else DisplayUnit(value, u[1..]);
    assert DisplayUnit(value, u[1..]) == if value >= TIB then u[1] else DisplayUnit(value, u[1..][1..]);
    assert u[1..][1..] == [u[2], u[3], u[4]];
    assert DisplayUnit(value, u[1..][1..])
        == if value >= GIB then u[2] else DisplayUnit(value, u[1..][1..][1..]);
    assert u[1..][1..][1..] == [u[3], u[4]];
    assert DisplayUnit(value, u[1..][1..][1..])
        == if value >= MIB then u[3] else DisplayUnit(value, u[1..][1..][1..][1..]);
    assert u[1..][1..][1..][1..] == [u[4]];
  }

  /** What is displayed is within half a tenth of its unit of the true count; a half is rounded up. */
  lemma SummaryIsClose(value: nat)
    ensures var m: int := UnitOf(value).multiplier;
      -m <= 2 * (10 * value - Tenths(value) * m) < m
  {
    UnitBrackets(value);
    var m := UnitOf(value).multiplier;
    if m > 1 {
      assert m / 2 * 2 == m;
      var n := value * 10 + m / 2;
      assert n == n / m * m + n % m;
    }
  }

  lemma UnitIsPower(value: nat) returns (k: nat)
    ensures k <= 5 && UnitOf(value).multiplier == Power(1_024, k)
    ensures (k == 0 || Power(1_024, k) <= value) && (k == 5 || value < Power(1_024, k + 1))
    ensures UnitOf(value).name == if k == 0 then Ascii("B") else [Prefix(k) - 32] + Ascii("iB")
  {
    UnitBrackets(value);
    BinaryPowers();
    hide UnitOf;
    var u := UnitOf(value);
    k := if value < KIB then 0 else if value < MIB then 1 else if value < GIB then 2 else if value < TIB then 3
         else if value < PIB then 4 else 5;
    if k > 0 {
      UnitsAreBinary(k);
      var i :| 0 <= i < |DisplayUnits()| && DisplayUnits()[i] == u;
      UnitsAreBinary(5 - i);
    }
  }

  /**
    * A count below 1024 is shown as it is. Any other is shown in the largest power of 1024 it reaches, up to
    * the fifth, as the nearest number of tenths, the larger one of two. A negative count is shown as zero.
    */
  lemma SummaryIsRounded(value: nat) returns (k: nat, tenths: nat)
    ensures k <= 5 && (k == 0 || Power(1_024, k) <= value) && (k == 5 || value < Power(1_024, k + 1))
    ensures var m: int := Power(1_024, k); -m <= 2 * (10 * value - tenths * m) < m
    ensures Summarize(value) == if k == 0 then Decimal(value) + Ascii(" B")
                                else TenthsText(tenths) + [SPACE] + [Prefix(k) - 32] + Ascii("iB")
    ensures forall bytes | bytes < 0 :: Summarize(bytes) == Ascii("0 B")
  {
    k := UnitIsPower(value);
    tenths := Tenths(value);
    SummaryIsClose(value);
    SummaryText(value, k);
    assert UnitOf(0).multiplier == 1 by {
      UnitBrackets(0);
    }
    assert Decimal(0) + [SPACE] + Ascii("B") == Ascii("0 B");
  }

  lemma SummaryText(value: nat, k: nat)
    requires k <= 5 && UnitOf(value).multiplier == Power(1_024, k)
    requires UnitOf(value).name == if k == 0 then Ascii("B") else [Prefix(k) - 32] + Ascii("iB")
    ensures Summarize(value) == if k == 0 then Decimal(value) + Ascii(" B")
                                else TenthsText(Tenths(value)) + [SPACE] + [Prefix(k) - 32] + Ascii("iB")
  {
    BinaryPowers();
    hide UnitOf, Tenths, TenthsText, Decimal;
    if k == 0 {
      assert Decimal(value) + [SPACE] + Ascii("B") == Decimal(value) + Ascii(" B");
    } else {
      var number := TenthsText(Tenths(value));
      assert number + [SPACE] + ([Prefix(k) - 32] + Ascii("iB"))
          == number + [SPACE] + [Prefix(k) - 32] + Ascii("iB");
    }
  }

  /** Below `k` units, rounding reaches at most `k` of them. */
  lemma TenthsBound(value: nat, k: nat)
    requires value < k * UnitOf(value).multiplier
    ensures Tenths(value) <= 10 * k
  {
  }

  /** Reaching a unit displays at least one of it. */
  lemma TenthsAtLeastTen(value: nat)
    requires value > 0
    ensures Tenths(value) >= 10
  {
  }

  /**
    * The displayed magnitude never decreases, also across a unit boundary; below the top unit
    * it is at most 1,024 of its unit, which is one of the next.
    */
  lemma SummaryIsMonotone(v: nat, w: nat)
    requires v <= w
    ensures Tenths(v) * UnitOf(v).multiplier <= Tenths(w) * UnitOf(w).multiplier
    ensures UnitOf(v).multiplier < PIB ==> Tenths(v) <= 10 * 1024
  {
    UnitBrackets(v);
    UnitBrackets(w);
    var m, n := UnitOf(v).multiplier, UnitOf(w).multiplier;
    if m < PIB {
      TenthsBound(v, 1024);
    }
    if m == n {
      if m > 1 {
        DivisionMonotone(v * 10 + m / 2, w * 10 + m / 2, m);
      }
      ProductMonotone(Tenths(v), Tenths(w), m);
    } else {
      ProductMonotone(Tenths(v), 10 * 1024, m);
      TenthsAtLeastTen(w);
      ProductMonotone(10, Tenths(w), n);
      assert 1024 * m <= n;
    }
  }

  /** The displayed number as the notation would have it, without grouping. */
  function SummaryQuantity(value: nat): (q: Quantity)
    ensures WellFormed(q)
  {
    LabelReadsBack(UnitOf(value));
    var tenths := Tenths(value);
    Quantity(Decimal(tenths / 10),
             if tenths % 10 == 0 then None else Some(Decimal(tenths % 10)),
             UnitOf(value).name)
  }

  lemma WholePart(value: nat)
    ensures UnitOf(value).multiplier == 1 ==> Tenths(value) / 10 == value && Tenths(value) % 10 == 0
  {
  }

  /** The number and its label, with the grouping of the whole part as given. */
  function SummaryWith(whole: Text, value: nat): Text {
    whole + FractionText(SummaryQuantity(value).fraction) + [SPACE] + UnitOf(value).name
  }

  lemma SummaryShape(value: nat)
    ensures Summarize(value)
      == SummaryWith(if UnitOf(value).multiplier == 1 then Decimal(value)
                     else Group(Decimal(Tenths(value) / 10), [COMMA]), value)
  {
    if UnitOf(value).multiplier == 1 {
      WholePart(value);
      assert Decimal(value) + [] == Decimal(value);
    }
    hide Decimal, Group;
  }

  lemma TailHasNoComma(value: nat)
    ensures COMMA !in FractionText(SummaryQuantity(value).fraction)
    ensures COMMA !in UnitOf(value).name
  {
  }

  /** Dropping the commas of a summary leaves its ungrouped spelling. */
  lemma SummaryWithoutCommas(value: nat)
    ensures Without(Summarize(value), COMMA) == SummaryWith(Decimal(Tenths(value) / 10), value)
  {
    SummaryShape(value);
    WholePart(value);
    TailHasNoComma(value);
    var digits := Decimal(Tenths(value) / 10);
    var whole := if UnitOf(value).multiplier == 1 then digits else Group(digits, [COMMA]);
    var fraction, name := FractionText(SummaryQuantity(value).fraction), UnitOf(value).name;
    WithoutConcat(whole + fraction + [SPACE], name, COMMA);
    WithoutConcat(whole + fraction, [SPACE], COMMA);
    WithoutConcat(whole, fraction, COMMA);
    WithoutAbsent(name, COMMA);
    WithoutAbsent([SPACE], COMMA);
    WithoutAbsent(fraction, COMMA);
    GroupReadsBack(digits, COMMA);
    WithoutAbsent(digits, COMMA);
  }

  /** The ungrouped spelling evaluates its quantity. */
  lemma SummaryParses(value: nat)
    ensures Parse(SummaryWith(Decimal(Tenths(value) / 10), value))
         == Evaluate(SummaryQuantity(value), UnitOf(value).multiplier)
  {
    var q := SummaryQuantity(value);
    LabelReadsBack(UnitOf(value));
    WrittenSpells(q, [SPACE]);
    ParseSpelled(SummaryWith(q.whole, value), q, [], [SPACE]);
  }

  lemma SummaryExactly(value: nat, r: nat)
    ensures Exactly(SummaryQuantity(value), UnitOf(value).multiplier, r)
       <==> 10 * r == Tenths(value) * UnitOf(value).multiplier
  {
    SummaryDigits(value);
    var m, tenths := UnitOf(value).multiplier, Tenths(value);
    assert Pow10(1) == 10 * Pow10(0);
    if tenths % 10 == 0 {
      TenfoldProduct(tenths, tenths / 10, m);
    }
  }

  lemma TenfoldProduct(a: int, b: int, m: int)
    requires a == 10 * b
    ensures a * m == 10 * (b * m)
  {
  }

  /** Read without its commas, a summary denotes exactly its tenths of its unit. */
  lemma SummaryDenotes(value: nat, r: nat)
    ensures Parse(Without(Summarize(value), COMMA)) == Some(r)
       <==> 10 * r == Tenths(value) * UnitOf(value).multiplier
  {
    SummaryWithoutCommas(value);
    SummaryParses(value);
    EvaluateExact(SummaryQuantity(value), UnitOf(value).multiplier, r);
    SummaryExactly(value, r);
  }

  lemma SummaryDigits(value: nat)
    ensures var q := SummaryQuantity(value); var tenths := Tenths(value);
      && |Digits(q.fraction)| == (if tenths % 10 == 0 then 0 else 1)
      && DigitsValue(q.whole + Digits(q.fraction)) == if tenths % 10 == 0 then tenths / 10 else tenths
  {
    var q := SummaryQuantity(value);
    var tenths := Tenths(value);
    DigitsValueConcat(q.whole, Digits(q.fraction));
    DecimalReadsBack(tenths / 10);
    DecimalReadsBack(tenths % 10);
    assert Pow10(1) == 10 * Pow10(0);
  }

  /** Nothing with a comma in it is a quantity. */
  lemma SpellingHasNoComma(t: Text, q: Quantity, sign: Text, gap: Text)
    requires Spells(t, q, sign, gap)
    ensures COMMA !in t
  {
  }

  lemma {:induction false} GroupedHasComma(digits: Text)
    ensures |digits| > 3 ==> COMMA in Group(digits, [COMMA])
  {
  }

  lemma DecimalLength(n: nat)
    ensures |Decimal(n)| <= 3 <==> n < 1000
  {
    if n >= 1000 {
      assert |Decimal(n)| == |Decimal(n / 10)| + 1;
      assert |Decimal(n / 10)| == |Decimal(n / 100)| + 1;
      assert |Decimal(n / 10 / 10)| == |Decimal(n / 10 / 10 / 10)| + 1;
    } else if n >= 100 {
      assert |Decimal(n)| == |Decimal(n / 10)| + 1;
      assert |Decimal(n / 10)| == |Decimal(n / 10 / 10)| + 1;
    }
  }

  /** No separator was inserted: bytes never get one, other units only from one thousand up. */
  predicate Ungrouped(value: nat) {
    UnitOf(value).multiplier == 1 || Tenths(value) / 10 < 1000
  }

  lemma UngroupedSummary(value: nat)
    requires Ungrouped(value)
    ensures Without(Summarize(value), COMMA) == Summarize(value)
  {
    SummaryShape(value);
    WholePart(value);
    DecimalLength(Tenths(value) / 10);
    SummaryWithoutCommas(value);
  }

  lemma GroupedSummaryIsRefused(value: nat)
    requires !Ungrouped(value)
    ensures Parse(Summarize(value)) == None
  {
    SummaryShape(value);
    LabelReadsBack(UnitOf(value));
    var digits := Decimal(Tenths(value) / 10);
    var whole := Group(digits, [COMMA]);
    DecimalLength(Tenths(value) / 10);
    GroupedHasComma(digits);
    GroupUnits(digits, [COMMA]);
    var fraction := FractionText(SummaryQuantity(value).fraction);
    WrittenIsTrimmed(whole + fraction, [SPACE], UnitOf(value).name);
    var t := Summarize(value);
    var i :| 0 <= i < |whole| && whole[i] == COMMA;
    assert t[i] == COMMA;
    if Scan(t).Some? {
      var sign, gap := ScanIsSpelling(t);
      SpellingHasNoComma(t, Scan(t).value, sign, gap);
    }
  }

  /**
    * A summary reads back as the count it was made from exactly when it was not rounded and
    * not grouped.
    */
  lemma SummaryReadsBack(value: nat)
    ensures Parse(Summarize(value)) == Some(value) <==>
      (Ungrouped(value) && 10 * value == Tenths(value) * UnitOf(value).multiplier)
  {
    if Ungrouped(value) {
      UngroupedSummary(value);
      SummaryDenotes(value, value);
    } else {
      GroupedSummaryIsRefused(value);
    }
  }

  /** The echo under a field. */
  function Describe(bytes: int): Text {
    var sign, count := if bytes < 0 then [MINUS] else [], if bytes < 0 then -bytes else bytes;
    sign + Group(Decimal(count), [COMMA]) + [SPACE] + (if bytes == 1 then Ascii("byte") else Ascii("bytes"))
  }

  /** Without its commas the echo is the exact count: nothing is rounded and nothing is lost. */
  lemma DescribeIsExact(bytes: int)
    ensures Without(Describe(bytes), COMMA)
         == IntegerText(bytes) + [SPACE] + (if bytes == 1 then Ascii("byte") else Ascii("bytes"))
  {
    var sign: Text := if bytes < 0 then [MINUS] else [];
    var count: nat := if bytes < 0 then -bytes else bytes;
    var word := if bytes == 1 then Ascii("byte") else Ascii("bytes");
    WithoutAbsent(sign, COMMA);
    WithoutAbsent([SPACE], COMMA);
    WithoutAbsent(word, COMMA);
    GroupReadsBack(Decimal(count), COMMA);
    WithoutConcat(sign, Group(Decimal(count), [COMMA]), COMMA);
    WithoutConcat(sign + Group(Decimal(count), [COMMA]), [SPACE], COMMA);
    WithoutConcat(sign + Group(Decimal(count), [COMMA]) + [SPACE], word, COMMA);
    assert [] + Decimal(count) == Decimal(count);
  }
}
