/**
  * The notation of lib/byte-quantity.ts: the unit tables, the grammar of a quantity, and the
  * pattern of the source as a scan that finds exactly the spellings of the grammar.
  */
module QuantityText {
  import opened Wrappers
  import opened JsText
  import opened Arithmetic

  // ---------- Units ----------

  const KIB: nat := 0x400
  const MIB: nat := 0x10_0000
  const GIB: nat := 0x4000_0000
  const TIB: nat := 0x100_0000_0000
  const PIB: nat := 0x4_0000_0000_0000

  datatype Unit = Unit(name: Text, multiplier: nat)

  /** Binary units, largest first. */
  function ByteUnits(): seq<Unit> {
    [Unit(Ascii("TiB"), TIB), Unit(Ascii("GiB"), GIB), Unit(Ascii("MiB"), MIB), Unit(Ascii("KiB"), KIB)]
  }

  function DisplayUnits(): seq<Unit> {
    [Unit(Ascii("PiB"), PIB)] + ByteUnits()
  }

  /** Every suffix a field accepts, in lower case. */
  function SuffixTable(): seq<Unit> {
    [Unit([], 1), Unit(Ascii("b"), 1), Unit(Ascii("kb"), 1_000), Unit(Ascii("mb"), 1_000_000),
     Unit(Ascii("gb"), 1_000_000_000), Unit(Ascii("tb"), 1_000_000_000_000),
     Unit(Ascii("pb"), 1_000_000_000_000_000), Unit(Ascii("kib"), KIB), Unit(Ascii("mib"), MIB),
     Unit(Ascii("gib"), GIB), Unit(Ascii("tib"), TIB), Unit(Ascii("pib"), PIB)]
  }

  function Lookup(table: seq<Unit>, name: Text): Option<nat> {
    if table == [] then None
    else if table[0].name == name then Some(table[0].multiplier)
    else Lookup(table[1..], name)
  }

  function SuffixMultiplier(suffix: Text): Option<nat> {
    Lookup(SuffixTable(), suffix)
  }

  lemma {:induction false} LookupFinds(table: seq<Unit>, i: nat)
    requires i < |table|
    requires forall j, k | 0 <= j < k < |table| :: table[j].name != table[k].name
    ensures Lookup(table, table[i].name) == Some(table[i].multiplier)
  {
    if i > 0 {
      LookupFinds(table[1..], i - 1);
    }
  }

  /** No suffix is listed twice: spellings of one length differ in their first letter. */
  lemma SuffixesDiffer(j: nat, k: nat)
    requires j < k < |SuffixTable()|
    ensures SuffixTable()[j].name != SuffixTable()[k].name
  {
    var t := SuffixTable();
    assert |t[j].name| == |t[k].name| && t[j].name != [] ==> t[j].name[0] != t[k].name[0];
  }

  lemma SuffixListed(i: nat)
    requires i < |SuffixTable()|
    ensures SuffixMultiplier(SuffixTable()[i].name) == Some(SuffixTable()[i].multiplier)
  {
    forall j, k | 0 <= j < k < |SuffixTable()|
      ensures SuffixTable()[j].name != SuffixTable()[k].name
    {
      SuffixesDiffer(j, k);
    }
    LookupFinds(SuffixTable(), i);
  }

  const LONG_S: CodeUnit := 0x17F
  const KELVIN_SIGN: CodeUnit := 0x212A

  /** `[a-z]` under the flags `iu`: case folding also lets in the long s and the Kelvin sign. */
  predicate IsUnitLetter(u: CodeUnit) {
    65 <= u <= 90 || 97 <= u <= 122 || u == LONG_S || u == KELVIN_SIGN
  }

  /** `toLowerCase` on those letters; the long s is already lower case. */
  function LowerLetter(u: CodeUnit): CodeUnit {
    if 65 <= u <= 90 then u + 32 else if u == KELVIN_SIGN then 107 else u
  }

  function Lower(t: Text): (r: Text)
    ensures |r| == |t|
    ensures forall i | 0 <= i < |r| :: r[i] == LowerLetter(t[i])
  {
    seq(|t|, i requires 0 <= i < |t| => LowerLetter(t[i]))
  }

  predicate AllLetters(t: Text) {
    forall i | 0 <= i < |t| :: IsUnitLetter(t[i])
  }

  /** The letters of the prefixes, in the order of their powers. */
  function Prefix(k: nat): CodeUnit
    requires 1 <= k <= 5
  {
    Ascii("kmgtp")[k - 1]
  }

  lemma BinaryPowers()
    ensures Power(1_024, 1) == KIB && Power(1_024, 2) == MIB && Power(1_024, 3) == GIB && Power(1_024, 4) == TIB
    ensures Power(1_024, 5) == PIB
  {
    assert Power(1_024, 1) == 1_024 * Power(1_024, 0);
    assert Power(1_024, 2) == 1_024 * Power(1_024, 1);
    assert Power(1_024, 3) == 1_024 * Power(1_024, 2);
    assert Power(1_024, 4) == 1_024 * Power(1_024, 3);
    assert Power(1_024, 5) == 1_024 * Power(1_024, 4);
  }

  lemma DecimalPowers()
    ensures Power(1_000, 1) == 1_000 && Power(1_000, 2) == 1_000_000 && Power(1_000, 3) == 1_000_000_000
    ensures Power(1_000, 4) == 1_000_000_000_000 && Power(1_000, 5) == 1_000_000_000_000_000
  {
    assert Power(1_000, 1) == 1_000 * Power(1_000, 0);
    assert Power(1_000, 2) == 1_000 * Power(1_000, 1);
    assert Power(1_000, 3) == 1_000 * Power(1_000, 2);
    assert Power(1_000, 4) == 1_000 * Power(1_000, 3);
    assert Power(1_000, 5) == 1_000 * Power(1_000, 4);
  }

  lemma {:induction false} LookupIsListed(table: seq<Unit>, name: Text) returns (i: nat)
    requires Lookup(table, name).Some?
    ensures i < |table| && table[i].name == name && Lookup(table, name) == Some(table[i].multiplier)
  {
    if table[0].name == name {
      i := 0;
    } else {
      i := LookupIsListed(table[1..], name);
      i := i + 1;
    }
  }

  lemma PrefixRows(k: nat)
    requires 1 <= k <= 5
    ensures |SuffixTable()| == 12
    ensures SuffixTable()[k + 1] == Unit([Prefix(k)] + Ascii("b"), Power(1_000, k))
    ensures SuffixTable()[k + 6] == Unit([Prefix(k)] + Ascii("ib"), Power(1_024, k))
  {
    DecimalPowers();
    BinaryPowers();
    assert [Prefix(k)] + Ascii("b") == SuffixTable()[k + 1].name;
    assert [Prefix(k)] + Ascii("ib") == SuffixTable()[k + 6].name;
  }

  /** The `k`-th prefix with "b" means the `k`-th power of a thousand, and with "ib" that of 1024. */
  lemma PrefixMeans(k: nat)
    requires 1 <= k <= 5
    ensures SuffixMultiplier([Prefix(k)] + Ascii("b")) == Some(Power(1_000, k))
    ensures SuffixMultiplier([Prefix(k)] + Ascii("ib")) == Some(Power(1_024, k))
  {
    PrefixRows(k);
    hide SuffixTable, Prefix, Power;
    SuffixListed(k + 1);
    SuffixListed(k + 6);
  }

  /** Nothing and "b" mean bytes, and there is no other suffix. */
  lemma OtherSuffixes(suffix: Text)
    ensures SuffixMultiplier([]) == SuffixMultiplier(Ascii("b")) == Some(1)
    ensures SuffixMultiplier(suffix).Some? ==>
      || suffix == [] || suffix == Ascii("b")
      || exists k | 1 <= k <= 5 :: suffix == [Prefix(k)] + Ascii("b") || suffix == [Prefix(k)] + Ascii("ib")
  {
    SuffixListed(0);
    SuffixListed(1);
    assert SuffixTable()[0] == Unit([], 1) && SuffixTable()[1] == Unit(Ascii("b"), 1);
    hide SuffixTable, Prefix, Power;
    if SuffixMultiplier(suffix).Some? {
      var i := LookupIsListed(SuffixTable(), suffix);
      if i >= 2 {
        PrefixRows(if i <= 6 then i - 1 else i - 6);
      }
    }
  }

  /** The writers' units are the powers of 1024, the largest first, up to "TiB" and up to "PiB". */
  lemma UnitsAreBinary(k: nat)
    requires 1 <= k <= 5
    ensures |ByteUnits()| == 4 && |DisplayUnits()| == 5
    ensures DisplayUnits()[5 - k] == Unit([Prefix(k) - 32] + Ascii("iB"), Power(1_024, k))
    ensures k <= 4 ==> ByteUnits()[4 - k] == DisplayUnits()[5 - k]
  {
    BinaryPowers();
    assert [Prefix(k) - 32] + Ascii("iB") == DisplayUnits()[5 - k].name;
  }

  /** One letter in either case; case folding also makes the Kelvin sign a "k". */
  predicate SameLetter(u: CodeUnit, lower: CodeUnit) {
    97 <= lower <= 122 && (u == lower || u == lower - 32 || (lower == 107 && u == 0x212A))
  }

  predicate SameLetters(t: Text, lower: Text) {
    |t| == |lower| && forall i | 0 <= i < |t| :: SameLetter(t[i], lower[i])
  }

  lemma SameLettersLower(t: Text, lower: Text)
    requires SameLetters(t, lower)
    ensures AllLetters(t) && Lower(t) == lower
  {
  }

  // ---------- Reading ----------

  /** The captures of the pattern: digits, the digits after a point, and the suffix. */
  datatype Quantity = Quantity(whole: Text, fraction: Option<Text>, suffix: Text)

  predicate WellFormed(q: Quantity) {
    && q.whole != [] && AllDigits(q.whole)
    && (q.fraction.Some? ==> q.fraction.value != [] && AllDigits(q.fraction.value))
    && AllLetters(q.suffix)
  }

  function FractionText(fraction: Option<Text>): Text {
    match fraction
    case None => []
    case Some(digits) => [DOT] + digits
  }

  /** The grammar: an optional plus, a decimal, white space, a suffix, and nothing else. */
  ghost predicate Spells(t: Text, q: Quantity, sign: Text, gap: Text) {
    && WellFormed(q)
    && (sign == [] || sign == [PLUS])
    && AllSpace(gap)
    && t == sign + q.whole + FractionText(q.fraction) + gap + q.suffix
  }

  /** Length of the leading run of digits. */
  function DigitRun(t: Text): (n: nat)
    ensures n <= |t|
  {
    if t != [] && IsDigit(t[0]) then 1 + DigitRun(t[1..]) else 0
  }

  function SpaceRun(t: Text): (n: nat)
    ensures n <= |t|
  {
    if t != [] && IsSpace(t[0]) then 1 + SpaceRun(t[1..]) else 0
  }

  lemma {:induction false} DigitRunSplits(t: Text)
    ensures AllDigits(t[..DigitRun(t)])
    ensures DigitRun(t) < |t| ==> !IsDigit(t[DigitRun(t)])
  {
    if t != [] && IsDigit(t[0]) {
      DigitRunSplits(t[1..]);
      assert t[..DigitRun(t)] == [t[0]] + t[1..][..DigitRun(t[1..])];
    }
  }

  lemma {:induction false} DigitRunOf(a: Text, b: Text)
    requires AllDigits(a) && (b == [] || !IsDigit(b[0]))
    ensures DigitRun(a + b) == |a|
  {
    if a == [] {
      assert a + b == b;
    } else {
      assert (a + b)[1..] == a[1..] + b;
      DigitRunOf(a[1..], b);
    }
  }

  lemma {:induction false} SpaceRunSplits(t: Text)
    ensures AllSpace(t[..SpaceRun(t)])
    ensures SpaceRun(t) < |t| ==> !IsSpace(t[SpaceRun(t)])
  {
    if t != [] && IsSpace(t[0]) {
      SpaceRunSplits(t[1..]);
      assert t[..SpaceRun(t)] == [t[0]] + t[1..][..SpaceRun(t[1..])];
    }
  }

  lemma {:induction false} SpaceRunOf(a: Text, b: Text)
    requires AllSpace(a) && (b == [] || !IsSpace(b[0]))
    ensures SpaceRun(a + b) == |a|
  {
    if a == [] {
      assert a + b == b;
    } else {
      assert (a + b)[1..] == a[1..] + b;
      SpaceRunOf(a[1..], b);
    }
  }

  /** Reads the suffix after its white space. */
  function ScanSuffix(whole: Text, fraction: Option<Text>, rest: Text): Option<Quantity> {
    var suffix := rest[SpaceRun(rest)..];
    if AllLetters(suffix) then Some(Quantity(whole, fraction, suffix)) else None
  }

  /** Reads the fraction, when a point is followed by a digit. */
  function ScanFraction(whole: Text, rest: Text): Option<Quantity> {
    if |rest| >= 2 && rest[0] == DOT && IsDigit(rest[1]) then
      var n := DigitRun(rest[1..]);
      ScanSuffix(whole, Some(rest[1..][..n]), rest[1..][n..])
    else
      ScanSuffix(whole, None, rest)
  }

  function ScanWhole(body: Text): Option<Quantity> {
    var n := DigitRun(body);
    if n == 0 then None else ScanFraction(body[..n], body[n..])
  }

  function Unsigned(t: Text): Text {
    if t != [] && t[0] == PLUS then t[1..] else t
  }

  /** The pattern as a left-to-right scan of the trimmed text. */
  function Scan(t: Text): Option<Quantity> {
    ScanWhole(Unsigned(t))
  }

  lemma ScanSuffixMeetsGrammar(whole: Text, fraction: Option<Text>, gap: Text, suffix: Text)
    requires AllSpace(gap) && AllLetters(suffix)
    ensures ScanSuffix(whole, fraction, gap + suffix) == Some(Quantity(whole, fraction, suffix))
  {
    SpaceRunOf(gap, suffix);
    assert (gap + suffix)[|gap|..] == suffix;
  }

  /** Neither white space nor a letter is a digit or a point. */
  lemma TailStart(gap: Text, suffix: Text)
    requires AllSpace(gap) && AllLetters(suffix) && gap + suffix != []
    ensures !IsDigit((gap + suffix)[0]) && (gap + suffix)[0] != DOT
  {
  }

  lemma ScanFractionMeetsGrammar(q: Quantity, gap: Text)
    requires WellFormed(q) && AllSpace(gap)
    ensures ScanFraction(q.whole, FractionText(q.fraction) + (gap + q.suffix)) == Some(q)
  {
    var tail := gap + q.suffix;
    ScanSuffixMeetsGrammar(q.whole, q.fraction, gap, q.suffix);
    if tail != [] {
      TailStart(gap, q.suffix);
    }
    match q.fraction {
      case None =>
        assert FractionText(q.fraction) + tail == tail;
      case Some(digits) =>
        var rest := FractionText(q.fraction) + tail;
        assert rest[1..] == digits + tail;
        DigitRunOf(digits, tail);
        assert rest[1..][..|digits|] == digits && rest[1..][|digits|..] == tail;
    }
  }

  /** Whatever the grammar spells, the scan finds: the spelling is unambiguous. */
  lemma ScanFindsSpelling(t: Text, q: Quantity, sign: Text, gap: Text)
    requires Spells(t, q, sign, gap)
    ensures Scan(t) == Some(q)
  {
    var rest := FractionText(q.fraction) + (gap + q.suffix);
    Reassociate(sign, q.whole, FractionText(q.fraction), gap, q.suffix);
    var body := q.whole + rest;
    assert Unsigned(t) == body by {
      assert body[0] == q.whole[0] != PLUS;
      assert t == sign + body;
    }
    RestStart(q, gap);
    DigitRunOf(q.whole, rest);
    assert body[..|q.whole|] == q.whole && body[|q.whole|..] == rest;
    ScanFractionMeetsGrammar(q, gap);
  }

  /** After the whole part comes a point, white space, a letter or nothing: never a digit. */
  lemma RestStart(q: Quantity, gap: Text)
    requires WellFormed(q) && AllSpace(gap)
    ensures var rest := FractionText(q.fraction) + (gap + q.suffix); rest == [] || !IsDigit(rest[0])
  {
  }

  lemma Associate(a: Text, b: Text, c: Text)
    ensures a + (b + c) == (a + b) + c
  {
  }

  lemma ScanSuffixIsSpelling(whole: Text, fraction: Option<Text>, rest: Text) returns (gap: Text)
    requires ScanSuffix(whole, fraction, rest).Some?
    ensures var q := ScanSuffix(whole, fraction, rest).value;
      && q.whole == whole && q.fraction == fraction && AllLetters(q.suffix)
      && AllSpace(gap) && rest == gap + q.suffix
  {
    SpaceRunSplits(rest);
    gap := rest[..SpaceRun(rest)];
  }

  lemma ScanFractionIsSpelling(whole: Text, rest: Text) returns (gap: Text)
    requires whole != [] && AllDigits(whole)
    requires ScanFraction(whole, rest).Some?
    ensures var q := ScanFraction(whole, rest).value;
      && WellFormed(q) && q.whole == whole && AllSpace(gap)
      && rest == FractionText(q.fraction) + (gap + q.suffix)
  {
    if |rest| >= 2 && rest[0] == DOT && IsDigit(rest[1]) {
      var after := rest[1..];
      var n := DigitRun(after);
      DigitRunSplits(after);
      var digits, tail := after[..n], after[n..];
      gap := ScanSuffixIsSpelling(whole, Some(digits), tail);
      assert after == digits + tail && rest == [DOT] + after;
      Associate([DOT], digits, tail);
    } else {
      gap := ScanSuffixIsSpelling(whole, None, rest);
      assert [] + rest == rest;
    }
  }

  lemma ScanWholeIsSpelling(body: Text) returns (gap: Text)
    requires ScanWhole(body).Some?
    ensures var q := ScanWhole(body).value;
      WellFormed(q) && AllSpace(gap)
      && body == q.whole + (FractionText(q.fraction) + (gap + q.suffix))
  {
    var n := DigitRun(body);
    DigitRunSplits(body);
    gap := ScanFractionIsSpelling(body[..n], body[n..]);
    assert body == body[..n] + body[n..];
  }

  /** Whatever the scan finds, the grammar spells. */
  lemma ScanIsSpelling(t: Text) returns (sign: Text, gap: Text)
    requires Scan(t).Some?
    ensures Spells(t, Scan(t).value, sign, gap)
  {
    var body := Unsigned(t);
    gap := ScanWholeIsSpelling(body);
    sign := if t != [] && t[0] == PLUS then [PLUS] else [];
    assert t == sign + body;
    var q := Scan(t).value;
    Reassociate(sign, q.whole, FractionText(q.fraction), gap, q.suffix);
  }

  lemma Reassociate(a: Text, b: Text, c: Text, d: Text, e: Text)
    ensures a + (b + (c + (d + e))) == a + b + c + d + e
  {
  }

  lemma ScanWellFormed(t: Text)
    ensures Scan(t).Some? ==> WellFormed(Scan(t).value)
  {
    if Scan(t).Some? {
      var sign, gap := ScanIsSpelling(t);
    }
  }
}
