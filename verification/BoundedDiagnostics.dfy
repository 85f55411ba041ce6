/**
  * integration/browser_harness.ts: diagnostics cut to a byte limit, the recorder that keeps
  * the first few of them, and the registry that bounds attached observations.
  */
module BoundedDiagnostics {
  import opened Wrappers
  import opened JsText
  import opened Arithmetic
  import opened Utf8

  const MAX_SAFE_INTEGER: nat := 0x1F_FFFF_FFFF_FFFF

  const TRUNCATION_SUFFIX: Text := Ascii("... [truncated]")

  datatype RangeError = NotPositiveSafeInteger | LimitBelowSuffix

  predicate PositiveSafeInteger(n: int) {
    0 < n <= MAX_SAFE_INTEGER
  }

  /** The limits a caller may pass; the others throw. */
  predicate UsableLimit(maximumBytes: int) {
    PositiveSafeInteger(maximumBytes) && |TRUNCATION_SUFFIX| <= maximumBytes
  }

  function LimitError(maximumBytes: int): RangeError
    requires !UsableLimit(maximumBytes)
  {
    if !PositiveSafeInteger(maximumBytes) then NotPositiveSafeInteger else LimitBelowSuffix
  }

  // ---------- Truncation ----------

  /** The specification of the truncation loop. */
  function Bounded(value: Text, maximumBytes: nat): Text
    requires |TRUNCATION_SUFFIX| <= maximumBytes
  {
    if ByteLength(value) <= maximumBytes then value
    else value[..PrefixEnd(value, maximumBytes - |TRUNCATION_SUFFIX|)] + TRUNCATION_SUFFIX
  }

  /** Of the boundaries up to `index`, `end` is the last one that takes at most `limit` bytes. */
  ghost predicate LongestUpTo(value: Text, limit: nat, end: nat, index: nat) {
    && end <= index <= |value| && Boundary(value, end) && Boundary(value, index)
    && ByteLength(value[..end]) <= limit
    && forall k | end < k <= index && Boundary(value, k) :: ByteLength(value[..k]) > limit
  }

  lemma LongestStep(value: Text, limit: nat, end: nat, index: nat)
    requires LongestUpTo(value, limit, end, index) && index < |value|
    ensures var next := index + Width(value, index);
      LongestUpTo(value, limit, if ByteLength(value[..next]) <= limit then next else end, next)
  {
    ByteLengthStep(value, index);
  }

  /** Once the text up to `index` is too long, the last boundary that left room is the longest. */
  lemma CutIsLongest(value: Text, limit: nat, end: nat, index: nat)
    requires LongestUpTo(value, limit, end, index) && ByteLength(value[..index]) > limit
    ensures end == PrefixEnd(value, limit) && ByteLength(value) >= ByteLength(value[..index])
  {
    hide ByteLength, PrefixEnd;
    forall k | index <= k <= |value| && Boundary(value, k)
      ensures ByteLength(value[..k]) >= ByteLength(value[..index])
    {
      ByteLengthMonotone(value, index, k);
    }
    assert value[..|value|] == value;
    PrefixEndIsLongest(value, limit);
    LongestPrefixUnique(value, limit, end, PrefixEnd(value, limit));
  }

  /** The loop keeps a running byte count and the last boundary that leaves room for the suffix. */
  method BoundedDiagnostic(value: Text, maximumBytes: int) returns (r: Result<Text, RangeError>)
    ensures UsableLimit(maximumBytes) ==> r == Ok(Bounded(value, maximumBytes))
    ensures r.Ok? <==> 15 <= maximumBytes <= 9_007_199_254_740_991
    ensures r == Err(LimitBelowSuffix) <==> 0 < maximumBytes < 15
  {
    if !PositiveSafeInteger(maximumBytes) {
      return Err(NotPositiveSafeInteger);
    }
    if maximumBytes < |TRUNCATION_SUFFIX| {
      return Err(LimitBelowSuffix);
    }
    var prefixByteLimit := maximumBytes - |TRUNCATION_SUFFIX|;
    var byteLength, prefixEnd, index := 0, 0, 0;
    assert value[..0] == [];
    assert LongestUpTo(value, prefixByteLimit, 0, 0);
    hide PrefixEnd, LongestUpTo;
    while index < |value|
      invariant prefixEnd <= index <= |value| && Boundary(value, index)
      invariant byteLength == ByteLength(value[..index]) <= maximumBytes
      invariant LongestUpTo(value, prefixByteLimit, prefixEnd, index)
      decreases |value| - index
    {
      ByteLengthStep(value, index);
      LongestStep(value, prefixByteLimit, prefixEnd, index);
      var codePoint := CodePointAt(value, index);
      var codeUnits := if codePoint > 0xFFFF then 2 else 1;
      byteLength := byteLength + CodePointBytes(codePoint);
      index := index + codeUnits;
      if byteLength <= prefixByteLimit {
        prefixEnd := index;
      }
      if byteLength > maximumBytes {
        CutIsLongest(value, prefixByteLimit, prefixEnd, index);
        return Ok(value[..prefixEnd] + TRUNCATION_SUFFIX);
      }
    }
    assert value[..|value|] == value;
    return Ok(value);
  }

  /** A suffix that does not start with a low surrogate adds its length. */
  lemma AppendAscii(prefix: Text, suffix: Text)
    requires suffix != [] && suffix[0] <= 0x7F
    ensures ByteLength(prefix + suffix) == ByteLength(prefix) + ByteLength(suffix)
  {
    assert (prefix + suffix)[|prefix|] == suffix[0];
    ByteLengthConcat(prefix, suffix);
  }

  lemma TruncatedFits(prefix: Text, limit: nat)
    requires ByteLength(prefix) <= limit
    ensures ByteLength(prefix + TRUNCATION_SUFFIX) <= limit + |TRUNCATION_SUFFIX|
  {
    AsciiBytes(TRUNCATION_SUFFIX);
    AppendAscii(prefix, TRUNCATION_SUFFIX);
  }

  /** The result always fits, whatever the text. */
  lemma BoundedFits(value: Text, maximumBytes: nat)
    requires |TRUNCATION_SUFFIX| <= maximumBytes
    ensures ByteLength(Bounded(value, maximumBytes)) <= maximumBytes
  {
    if ByteLength(value) > maximumBytes {
      var limit := maximumBytes - |TRUNCATION_SUFFIX|;
      PrefixEndFits(value, limit);
      TruncatedFits(value[..PrefixEnd(value, limit)], limit);
    }
  }

  /** The input comes back unchanged exactly when it fits. */
  lemma BoundedKeepsWhatFits(value: Text, maximumBytes: nat)
    requires |TRUNCATION_SUFFIX| <= maximumBytes
    ensures Bounded(value, maximumBytes) == value <==> ByteLength(value) <= maximumBytes
  {
    BoundedFits(value, maximumBytes);
  }

  /** Otherwise what is kept is the longest prefix on a boundary that leaves room for the suffix. */
  lemma BoundedKeepsTheMost(value: Text, maximumBytes: nat) returns (end: nat)
    requires 15 <= maximumBytes < ByteLength(value)
    ensures LongestPrefix(value, maximumBytes - 15, end)
    ensures Bounded(value, maximumBytes) == value[..end] + Ascii("... [truncated]")
  {
    end := PrefixEnd(value, maximumBytes - |TRUNCATION_SUFFIX|);
    PrefixEndIsLongest(value, maximumBytes - |TRUNCATION_SUFFIX|);
  }

  lemma BoundedIdempotent(value: Text, maximumBytes: nat)
    requires |TRUNCATION_SUFFIX| <= maximumBytes
    ensures Bounded(Bounded(value, maximumBytes), maximumBytes) == Bounded(value, maximumBytes)
  {
    BoundedFits(value, maximumBytes);
  }

  // ---------- Recorder ----------

  function BoundedAll(values: seq<Text>, maximumBytes: nat): (r: seq<Text>)
    requires |TRUNCATION_SUFFIX| <= maximumBytes
    ensures |r| == |values|
    ensures forall i | 0 <= i < |r| :: r[i] == Bounded(values[i], maximumBytes)
  {
    seq(|values|, i requires 0 <= i < |values| => Bounded(values[i], maximumBytes))
  }

  class BoundedRecorder {
    const limit: nat
    const maximumEntryBytes: nat
    var values: seq<Text>
    var overflow: nat
    ghost var added: seq<Text>  // every value ever passed to Add

    ghost predicate Valid()
      reads this
    {
      && 0 < limit <= MAX_SAFE_INTEGER && UsableLimit(maximumEntryBytes)
      && values == BoundedAll(added[..Min(|added|, limit)], maximumEntryBytes)
      && overflow == Min(|added| - |values|, MAX_SAFE_INTEGER)
    }

    constructor (limit: nat, maximumEntryBytes: nat)
      requires PositiveSafeInteger(limit) && UsableLimit(maximumEntryBytes)
      ensures Valid() && added == []
      ensures this.limit == limit && this.maximumEntryBytes == maximumEntryBytes
    {
      this.limit, this.maximumEntryBytes := limit, maximumEntryBytes;
      values, overflow, added := [], 0, [];
    }

    /**
      * After any number of additions the recorder holds the bounded forms of the first
      * `limit` of them in order, and counts the rest up to the largest safe integer.
      */
    method Add(value: Text)
      requires Valid()
      modifies this
      ensures Valid() && added == old(added) + [value]
    {
      ghost var before := added[..Min(|added|, limit)];
      if |values| < limit {
        var bounded := BoundedDiagnostic(value, maximumEntryBytes);
        values := values + [bounded.value];
        assert added + [value] == before + [value];
      } else if overflow < MAX_SAFE_INTEGER {
        overflow := overflow + 1;
      }
      added := added + [value];
      assert added[..Min(|added|, limit)] == if |before| < limit then before + [value] else before;
    }

    /** The kept values and, once anything was dropped, one line that says how many. */
    method Snapshot() returns (lines: seq<Text>)
      requires Valid()
      ensures |lines| <= limit + 1
      ensures |added| <= limit ==> lines == BoundedAll(added, maximumEntryBytes)
      ensures |added| > limit ==>
        var dropped := Min(|added| - limit, 9_007_199_254_740_991);
        var words := if dropped == 1 then Ascii(" additional entry") else Ascii(" additional entries");
        lines == BoundedAll(added[..limit], maximumEntryBytes) + [Ascii("... ") + Decimal(dropped) + words]
    {
      if overflow == 0 {
        assert |added| <= limit ==> added[..Min(|added|, limit)] == added;
        lines := values;
      } else {
        OverflowLineIs(overflow);
        lines := values + [OverflowLine(overflow)];
      }
    }
  }

  /** The factory refuses the limits it cannot honour. */
  method NewRecorder(limit: int, maximumEntryBytes: int) returns (r: Result<BoundedRecorder, RangeError>)
    ensures r.Ok? <==> 1 <= limit <= 9_007_199_254_740_991 && 15 <= maximumEntryBytes <= 9_007_199_254_740_991
    ensures r.Ok? ==> fresh(r.value) && r.value.Valid() && r.value.added == []
    ensures r.Ok? ==> r.value.limit == limit && r.value.maximumEntryBytes == maximumEntryBytes
    ensures r.Err? && !PositiveSafeInteger(limit) ==> r.error == NotPositiveSafeInteger
    ensures r.Err? && PositiveSafeInteger(limit) ==> r.error == LimitError(maximumEntryBytes)
  {
    if !PositiveSafeInteger(limit) {
      return Err(NotPositiveSafeInteger);
    }
    if !PositiveSafeInteger(maximumEntryBytes) {
      return Err(NotPositiveSafeInteger);
    }
    if maximumEntryBytes < |TRUNCATION_SUFFIX| {
      return Err(LimitBelowSuffix);
    }
    var recorder := new BoundedRecorder(limit, maximumEntryBytes);
    r := Ok(recorder);
  }

  function OverflowLine(overflow: nat): Text {
    Ascii("... ") + Decimal(overflow) + Ascii(" additional ")
    + (if overflow == 1 then Ascii("entry") else Ascii("entries"))
  }

  lemma OverflowLineIs(overflow: nat)
    ensures var words := if overflow == 1 then Ascii(" additional entry") else Ascii(" additional entries");
      OverflowLine(overflow) == Ascii("... ") + Decimal(overflow) + words
  {
    hide Decimal;
    assert Ascii(" additional ") + Ascii("entry") == Ascii(" additional entry");
    assert Ascii(" additional ") + Ascii("entries") == Ascii(" additional entries");
  }

  // ---------- Observation registry ----------

  /** A JavaScript `Map` keeps its entries in insertion order. */
  datatype Entry<Key, Cleanup> = Entry(key: Key, cleanup: Cleanup)

  predicate Holds<Key(==), Cleanup>(entries: seq<Entry<Key, Cleanup>>, key: Key) {
    exists i | 0 <= i < |entries| :: entries[i].key == key
  }

  function Cleanups<Key, Cleanup>(entries: seq<Entry<Key, Cleanup>>): (r: seq<Cleanup>)
    ensures |r| == |entries|
    ensures forall i | 0 <= i < |r| :: r[i] == entries[i].cleanup
  {
    seq(|entries|, i requires 0 <= i < |entries| => entries[i].cleanup)
  }

  class BoundedObservationRegistry<Key(==), Cleanup> {
    const maximum: nat
    var entries: seq<Entry<Key, Cleanup>>
    ghost var attached: seq<Cleanup>  // what every attachment so far returned, in order
    ghost var ran: seq<Cleanup>       // the cleanups run so far, in order

    ghost predicate Valid()
      reads this
    {
      && 0 < maximum <= MAX_SAFE_INTEGER
      && |entries| <= maximum
      && (forall i, j | 0 <= i < j < |entries| :: entries[i].key != entries[j].key)
      // Attachment by attachment: each cleanup has run once or is still held, never both.
      && attached == ran + Cleanups(entries)
    }

    constructor (maximum: nat)
      requires PositiveSafeInteger(maximum)
      ensures Valid() && entries == [] && attached == [] && ran == []
      ensures this.maximum == maximum
    {
      this.maximum := maximum;
      entries, attached, ran := [], [], [];
    }

    /**
      * Attaches unless the key is held or the registry is full. `cleanup` is what the
      * attachment would return; it counts as attached only when it is called.
      */
    method TryObserve(key: Key, cleanup: Cleanup) returns (observed: bool)
      requires Valid()
      modifies this
      ensures Valid() && ran == old(ran)
      ensures observed == (old(Holds(entries, key)) || old(|entries|) < maximum)
      ensures observed ==> Holds(entries, key)
      ensures var attaches := !old(Holds(entries, key)) && old(|entries|) < maximum;
        && entries == old(entries) + (if attaches then [Entry(key, cleanup)] else [])
        && attached == old(attached) + (if attaches then [cleanup] else [])
    {
      if Holds(entries, key) {
        return true;
      }
      if |entries| >= maximum {
        return false;
      }
      ghost var before := Cleanups(entries);
      entries := entries + [Entry(key, cleanup)];
      attached := attached + [cleanup];
      assert entries[|entries| - 1].key == key;
      assert Cleanups(entries) == before + [cleanup];
      assert ran + Cleanups(entries) == (ran + before) + [cleanup];
      observed := true;
    }

    /** Empties the map first and then runs every held cleanup: now each has run exactly once. */
    method Clear()
      requires Valid()
      modifies this
      ensures Valid() && entries == [] && attached == old(attached)
      ensures ran == attached
    {
      var cleanups := entries;
      entries := [];
      ghost var first := ran;
      for k := 0 to |cleanups|
        invariant ran == first + Cleanups(cleanups)[..k]
        invariant entries == [] && attached == old(attached)
      {
        ran := ran + [cleanups[k].cleanup];
      }
      assert Cleanups(cleanups)[..|cleanups|] == Cleanups(cleanups);
    }
  }
}
