/**
  * lib/byte-quantity.ts, reading and writing: `Parse` reads a field exactly, `Format` writes
  * one without loss.
  */
module ByteQuantity {
  import opened Wrappers
  import opened JsText
  import opened Arithmetic
  import opened QuantityText

  /** The arithmetic of the source: the whole part, and the fraction when it lands on a byte. */
  function Evaluate(q: Quantity, multiplier: nat): Option<nat>
    requires WellFormed(q)
  {
    var whole := DigitsValue(q.whole) * multiplier;
    match q.fraction
    case None => Some(whole)
    case Some(fraction) =>
      var scale := Pow10(|fraction|);
      var scaled := DigitsValue(fraction) * multiplier;
      if scaled % scale != 0 then None else Some(whole + scaled / scale)
  }

  function Parse(text: Text): Option<nat> {
    var scanned := Scan(Trim(text));
    if scanned.None? then None
    else
      ScanWellFormed(Trim(text));
      match SuffixMultiplier(Lower(scanned.value.suffix))
      case None => None
      case Some(multiplier) => Evaluate(scanned.value, multiplier)
  }

  // ---------- What reading means ----------

  function Digits(fraction: Option<Text>): Text {
    match fraction
    case None => []
    case Some(digits) => digits
  }

  /** `r` bytes are the decimal number of the text times the unit, as exact rationals. */
  predicate Exactly(q: Quantity, multiplier: nat, r: nat)
    requires WellFormed(q)
  {
    r * Pow10(|Digits(q.fraction)|) == DigitsValue(q.whole + Digits(q.fraction)) * multiplier
  }

  lemma Expand(w: int, f: int, s: int, multiplier: int)
    ensures (w * s + f) * multiplier == w * multiplier * s + f * multiplier
  {
  }

  lemma DivisionIsExact(whole: int, scaled: int, s: int, r: int)
    requires s > 0
    ensures (scaled % s == 0 && r == whole + scaled / s) <==> r * s == whole * s + scaled
  {
    var k := scaled / s;
    assert (whole + k) * s == whole * s + k * s;
    if r * s == whole * s + scaled {
      assert (r - whole) * s == scaled;
      MultipleMod(r - whole, s);
    }
  }

  /** The source's two-part arithmetic accepts exactly the whole byte counts, and returns them. */
  lemma EvaluateExact(q: Quantity, multiplier: nat, r: nat)
    requires WellFormed(q)
    ensures Evaluate(q, multiplier) == Some(r) <==> Exactly(q, multiplier, r)
  {
    var fraction := Digits(q.fraction);
    var s := Pow10(|fraction|);
    DigitsValueConcat(q.whole, fraction);
    var w, f := DigitsValue(q.whole), DigitsValue(fraction);
    Expand(w, f, s, multiplier);
    DivisionIsExact(w * multiplier, f * multiplier, s, r);
    if q.fraction.None? {
      assert f == 0 && s == 1;
      assert f * multiplier == 0;
    }
  }

  /** Some spelling of the text, with a known suffix, denotes exactly `r` bytes. */
  ghost predicate Denotes(text: Text, r: nat) {
    exists q, sign, gap ::
      && Spells(Trim(text), q, sign, gap)
      && SuffixMultiplier(Lower(q.suffix)).Some?
      && Exactly(q, SuffixMultiplier(Lower(q.suffix)).value, r)
  }

  /** A spelled text is evaluated in the unit its suffix names. */
  lemma ParseSpelled(text: Text, q: Quantity, sign: Text, gap: Text)
    requires Spells(Trim(text), q, sign, gap)
    ensures Parse(text) == match SuffixMultiplier(Lower(q.suffix))
                           case None => None
                           case Some(multiplier) => Evaluate(q, multiplier)
  {
    ScanFindsSpelling(Trim(text), q, sign, gap);
  }

  /** `Parse` returns a count if and only if the text denotes that count. */
  lemma ParseExact(text: Text, r: nat)
    ensures Parse(text) == Some(r) <==> Denotes(text, r)
  {
    var t := Trim(text);
    if Parse(text) == Some(r) {
      var sign, gap := ScanIsSpelling(t);
      var q := Scan(t).value;
      EvaluateExact(q, SuffixMultiplier(Lower(q.suffix)).value, r);
      assert Spells(t, q, sign, gap);
    }
    if Denotes(text, r) {
      var q, sign, gap :|
        && Spells(t, q, sign, gap)
        && SuffixMultiplier(Lower(q.suffix)).Some?
        && Exactly(q, SuffixMultiplier(Lower(q.suffix)).value, r);
      ScanFindsSpelling(t, q, sign, gap);
      EvaluateExact(q, SuffixMultiplier(Lower(q.suffix)).value, r);
    }
  }

  /** `p` is `q` with zeros before its whole part and after its fraction. */
  predicate Pads(p: Quantity, q: Quantity, leading: nat, trailing: nat) {
    && p.whole == Zeros(leading) + q.whole
    && Digits(p.fraction) == Digits(q.fraction) + Zeros(trailing)
    && p.suffix == q.suffix
  }

  lemma PaddedDigits(p: Quantity, q: Quantity, leading: nat, trailing: nat)
    requires WellFormed(p) && WellFormed(q) && Pads(p, q, leading, trailing)
    ensures DigitsValue(p.whole + Digits(p.fraction))
         == DigitsValue(q.whole + Digits(q.fraction)) * Pow10(trailing)
  {
    hide DigitsValue;
    ZerosValue(leading);
    ZerosValue(trailing);
    PaddedValue(Zeros(leading), q.whole + Digits(q.fraction), Zeros(trailing));
    Regroup(Zeros(leading), q.whole, Digits(q.fraction), Zeros(trailing));
  }

  lemma Regroup(a: Text, b: Text, c: Text, d: Text)
    ensures (a + b) + (c + d) == a + (b + c) + d
  {
  }

  lemma PaddedExactly(p: Quantity, q: Quantity, leading: nat, trailing: nat, multiplier: nat, r: nat)
    requires WellFormed(p) && WellFormed(q) && Pads(p, q, leading, trailing)
    ensures Exactly(p, multiplier, r) <==> Exactly(q, multiplier, r)
  {
    hide DigitsValue, Pow10;
    PaddedDigits(p, q, leading, trailing);
    Pow10Adds(|Digits(q.fraction)|, trailing);
    Rescale(r, Pow10(|Digits(q.fraction)|), DigitsValue(q.whole + Digits(q.fraction)), multiplier, Pow10(trailing));
  }

  lemma Rescale(r: int, scale: int, n: int, multiplier: int, s: int)
    requires s > 0
    ensures r * (scale * s) == (n * s) * multiplier <==> r * scale == n * multiplier
  {
  }

  /** Leading zeros and zeros after the fraction never change what is read. */
  lemma ParseIgnoresZeros(text: Text, q: Quantity, sign: Text, gap: Text,
                          padded: Text, p: Quantity, sign': Text, gap': Text,
                          leading: nat, trailing: nat)
    requires Spells(Trim(text), q, sign, gap)
    requires Spells(Trim(padded), p, sign', gap')
    requires Pads(p, q, leading, trailing)
    ensures Parse(padded) == Parse(text)
  {
    ParseSpelled(text, q, sign, gap);
    ParseSpelled(padded, p, sign', gap');
    if SuffixMultiplier(Lower(q.suffix)).Some? {
      var m := SuffixMultiplier(Lower(q.suffix)).value;
      forall r: nat
        ensures Evaluate(p, m) == Some(r) <==> Evaluate(q, m) == Some(r)
      {
        PaddedExactly(p, q, leading, trailing, m, r);
        EvaluateExact(q, m, r);
        EvaluateExact(p, m, r);
      }
      assert Evaluate(q, m).Some? ==> Evaluate(p, m) == Some(Evaluate(q, m).value);
      assert Evaluate(p, m).Some? ==> Evaluate(q, m) == Some(Evaluate(p, m).value);
    }
  }

  // ---------- Writing ----------

  /** `toString` of an integer. */
  function IntegerText(n: int): Text {
    if n < 0 then [MINUS] + Decimal(-n) else Decimal(n)
  }

  /** The first listed unit that divides the value exactly; plain bytes when none does. */
  function DividingUnit(bytes: int, units: seq<Unit>): (u: Unit)
    requires forall i | 0 <= i < |units| :: units[i].multiplier > 0
    ensures u == Unit(Ascii("B"), 1) || u in units
    ensures u.multiplier > 0
  {
    if units == [] then Unit(Ascii("B"), 1)
    else if bytes >= units[0].multiplier && bytes % units[0].multiplier == 0 then units[0]
    else DividingUnit(bytes, units[1..])
  }

  function Format(bytes: int): Text {
    var unit := DividingUnit(bytes, ByteUnits());
    IntegerText(bytes / unit.multiplier) + [SPACE] + unit.name
  }

  /** In a descending table, the first unit that divides is the largest one. */
  lemma {:induction false} FirstDividingIsLargest(bytes: int, units: seq<Unit>)
    requires bytes > 0
    requires forall i | 0 <= i < |units| :: units[i].multiplier > 0
    requires forall i, j | 0 <= i < j < |units| :: units[i].multiplier > units[j].multiplier
    ensures var unit := DividingUnit(bytes, units);
      && bytes % unit.multiplier == 0
      && forall u | u in units && bytes % u.multiplier == 0 :: u.multiplier <= unit.multiplier
  {
    if units == [] {
      assert bytes % 1 == 0;
    } else {
      FirstDividingIsLargest(bytes, units[1..]);
      var m := units[0].multiplier;
      if bytes < m {
        DivModUnique(bytes, m, 0, bytes);
      }
    }
  }

  /** A positive count is written in the largest listed unit that divides it. */
  lemma FormatPicksLargest(bytes: int)
    requires bytes > 0
    ensures var unit := DividingUnit(bytes, ByteUnits());
      && bytes % unit.multiplier == 0
      && (forall u | u in ByteUnits() && bytes % u.multiplier == 0 :: u.multiplier <= unit.multiplier)
      && Format(bytes) == Decimal(bytes / unit.multiplier) + [SPACE] + unit.name
  {
    FirstDividingIsLargest(bytes, ByteUnits());
  }

  /** The label of a unit is, in lower case, the suffix listed at `i` with its multiplier. */
  predicate LabelListedAt(unit: Unit, i: nat) {
    && i < |SuffixTable()| && unit.multiplier == SuffixTable()[i].multiplier
    && unit.name != [] && AllLetters(unit.name) && Lower(unit.name) == SuffixTable()[i].name
  }

  /** Each label the writers use reads back as its own multiplier. */
  lemma LabelReadsBack(unit: Unit)
    requires unit == Unit(Ascii("B"), 1) || unit in DisplayUnits()
    ensures unit.name != [] && AllLetters(unit.name)
    ensures SuffixMultiplier(Lower(unit.name)) == Some(unit.multiplier)
  {
    var i := LabelPosition(unit);
    SuffixListed(i);
  }

  lemma LabelPosition(unit: Unit) returns (i: nat)
    requires unit == Unit(Ascii("B"), 1) || unit in DisplayUnits()
    ensures LabelListedAt(unit, i)
  {
    i := if unit.multiplier == 1 then 1
         else if unit.multiplier == KIB then 7
         else if unit.multiplier == MIB then 8
         else if unit.multiplier == GIB then 9
         else if unit.multiplier == TIB then 10
         else 11;
  }

  /** A written quantity is trimmed, so reading scans it as it stands. */
  lemma WrittenIsTrimmed(front: Text, gap: Text, name: Text)
    requires front != [] && !IsSpace(front[0]) && name != [] && AllLetters(name)
    ensures Trim(front + gap + name) == front + gap + name
  {
  }

  /** A quantity written with a label is spelled as it stands. */
  lemma WrittenSpells(q: Quantity, gap: Text)
    requires WellFormed(q) && q.suffix != [] && AllSpace(gap)
    ensures Spells(Trim(q.whole + FractionText(q.fraction) + gap + q.suffix), q, [], gap)
  {
  }

  /** A whole number of a labelled unit reads back as that many bytes, with or without a space. */
  lemma WrittenReadsBack(n: nat, gap: Text, unit: Unit)
    requires unit == Unit(Ascii("B"), 1) || unit in DisplayUnits()
    requires AllSpace(gap)
    ensures Parse(Decimal(n) + gap + unit.name) == Some(n * unit.multiplier)
  {
    hide Decimal, DisplayUnits, Trim;
    LabelReadsBack(unit);
    DecimalReadsBack(n);
    var q := Quantity(Decimal(n), None, unit.name);
    WrittenSpells(q, gap);
    assert q.whole + FractionText(None) == q.whole;
    ParseSpelled(Decimal(n) + gap + unit.name, q, [], gap);
  }

  /**
    * A decimal with a prefix means that many thousands to the prefix's power before "b", and that many times
    * 1024 to its power before "ib": with or without a plus, in any case, after any white space. It is
    * read as `r` bytes if and only if that is exact.
    */
  lemma PrefixedQuantityReads(sign: Text, whole: Text, fraction: Text, gap: Text, suffix: Text, k: nat, r: nat)
    requires (sign == [] || sign == Ascii("+")) && whole != [] && AllDigits(whole) && AllDigits(fraction)
    requires AllSpace(gap) && 1 <= k <= 5
    ensures var text := sign + whole + (if fraction == [] then [] else Ascii(".") + fraction) + gap + suffix;
      && (SameLetters(suffix, [Prefix(k)] + Ascii("b")) ==>
            (Parse(text) == Some(r) <==> r * Pow10(|fraction|) == DigitsValue(whole + fraction) * Power(1_000, k)))
      && (SameLetters(suffix, [Prefix(k)] + Ascii("ib")) ==>
            (Parse(text) == Some(r) <==> r * Pow10(|fraction|) == DigitsValue(whole + fraction) * Power(1_024, k)))
  {
    hide Trim, Lower, Parse, DigitsValue, Pow10;
    PrefixMeans(k);
    var decimals, binaries := [Prefix(k)] + Ascii("b"), [Prefix(k)] + Ascii("ib");
    if SameLetters(suffix, decimals) {
      QuantityReads(sign, whole, fraction, gap, suffix, decimals, Power(1_000, k), r);
    }
    if SameLetters(suffix, binaries) {
      QuantityReads(sign, whole, fraction, gap, suffix, binaries, Power(1_024, k), r);
    }
  }

  lemma QuantityReads(sign: Text, whole: Text, fraction: Text, gap: Text, suffix: Text, lower: Text, multiplier: nat,
                      r: nat)
    requires (sign == [] || sign == Ascii("+")) && whole != [] && AllDigits(whole) && AllDigits(fraction)
    requires AllSpace(gap) && suffix != [] && SameLetters(suffix, lower)
    requires SuffixMultiplier(lower) == Some(multiplier)
    ensures var text := sign + whole + (if fraction == [] then [] else Ascii(".") + fraction) + gap + suffix;
      Parse(text) == Some(r) <==> r * Pow10(|fraction|) == DigitsValue(whole + fraction) * multiplier
  {
    hide SuffixMultiplier, Lower, Parse, DigitsValue, Pow10;
    SameLettersLower(suffix, lower);
    var q := Quantity(whole, if fraction == [] then None else Some(fraction), suffix);
    SignedSpells(q, sign, gap);
    assert Ascii(".") == [DOT] && Digits(q.fraction) == fraction;
    hide Trim;
    ParseSpelled(sign + whole + FractionText(q.fraction) + gap + suffix, q, sign, gap);
    EvaluateExact(q, multiplier, r);
  }

  /** A quantity with a suffix is spelled as it stands, with or without a plus. */
  lemma SignedSpells(q: Quantity, sign: Text, gap: Text)
    requires WellFormed(q) && q.suffix != [] && AllSpace(gap) && (sign == [] || sign == Ascii("+"))
    ensures Spells(Trim(sign + q.whole + FractionText(q.fraction) + gap + q.suffix), q, sign, gap)
  {
    assert Ascii("+") == [PLUS];
    WrittenIsTrimmed(sign + q.whole + FractionText(q.fraction), gap, q.suffix);
  }

  /** A minus sign is never part of a quantity. */
  lemma NegativeIsRefused(n: nat, name: Text)
    requires name != [] && AllLetters(name)
    ensures Parse([MINUS] + Decimal(n) + [SPACE] + name) == None
  {
  }

  lemma {:induction false} NegativeDividesNothing(bytes: int, units: seq<Unit>)
    requires bytes < 0 && forall i | 0 <= i < |units| :: units[i].multiplier > 0
    ensures DividingUnit(bytes, units) == Unit(Ascii("B"), 1)
  {
    if units != [] {
      NegativeDividesNothing(bytes, units[1..]);
    }
  }

  lemma NegativeInBytes(bytes: int)
    requires bytes < 0
    ensures Format(bytes) == [MINUS] + Decimal(-bytes) + [SPACE] + Ascii("B")
  {
    NegativeDividesNothing(bytes, ByteUnits());
    hide DividingUnit, ByteUnits;
  }

  /** Writing and reading lose nothing, for every count and for no negative number. */
  lemma FormatRoundTrip(bytes: int)
    ensures bytes >= 0 ==> Parse(Format(bytes)) == Some(bytes)
    ensures bytes < 0 ==> Parse(Format(bytes)) == None
  {
    hide Parse, Format;
    if bytes < 0 {
      NegativeInBytes(bytes);
      LabelReadsBack(Unit(Ascii("B"), 1));
      NegativeIsRefused(-bytes, Ascii("B"));
    } else {
      FormatReadsBack(bytes, [SPACE]);
    }
  }

  /** What `Format` writes, with another gap before the label. */
  function FormatWithGap(bytes: nat, gap: Text): Text {
    var unit := DividingUnit(bytes, ByteUnits());
    Decimal(bytes / unit.multiplier) + gap + unit.name
  }

  lemma FormatReadsBack(bytes: nat, gap: Text)
    requires AllSpace(gap)
    ensures Parse(FormatWithGap(bytes, gap)) == Some(bytes)
    ensures FormatWithGap(bytes, [SPACE]) == Format(bytes)
  {
    hide Parse;
    var unit := DividingUnit(bytes, ByteUnits());
    DividingUnitDivides(bytes, ByteUnits());
    var n: nat := bytes / unit.multiplier;
    WrittenReadsBack(n, gap, unit);
  }

  /**
    * Despite its comment, `Format` never writes the shortest text that reads back: its space is
    * optional.
    */
  lemma FormatIsNeverShortest(bytes: nat)
    ensures var shorter := FormatWithGap(bytes, []);
      Parse(shorter) == Some(bytes) && |shorter| < |Format(bytes)|
  {
    hide Parse;
    FormatReadsBack(bytes, []);
  }

  lemma {:induction false} DividingUnitDivides(bytes: int, units: seq<Unit>)
    requires forall i | 0 <= i < |units| :: units[i].multiplier > 0
    ensures bytes / DividingUnit(bytes, units).multiplier * DividingUnit(bytes, units).multiplier == bytes
  {
    if units != [] {
      if bytes >= units[0].multiplier && bytes % units[0].multiplier == 0 {
        ExactQuotient(bytes, units[0].multiplier);
      } else {
        DividingUnitDivides(bytes, units[1..]);
      }
    }
  }

  lemma ExactQuotient(n: int, m: int)
    requires m > 0 && n % m == 0
    ensures n / m * m == n
  {
  }
}
