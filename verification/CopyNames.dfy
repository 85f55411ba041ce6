/**
  * lib/search/saved-search-names.ts and the copy names of app/search-workspace.tsx: a name with a
  * numbered suffix cut to 255 bytes, the first free number, and the bounded duplicate action.
  */
module CopyNames {
  import opened Wrappers
  import opened JsText
  import opened Utf8

  const MAXIMUM_SAVED_SEARCH_NAME_BYTES: nat := 255
  const MAXIMUM_READABLE_DUPLICATE_NAME_ATTEMPTS: nat := 8
  const MAXIMUM_RANDOM_DUPLICATE_NAME_ATTEMPTS: nat := 3

  // ---------- Names with a suffix ----------

  function Truncated(value: Text, maximumBytes: nat): Text {
    value[..PrefixEnd(value, maximumBytes)]
  }

  /** Keeps whole code points while they fit. */
  method TruncateUtf8ToByteLength(value: Text, maximumBytes: nat) returns (result: Text)
    ensures result == Truncated(value, maximumBytes)
    ensures LongestPrefix(value, maximumBytes, |result|)
  {
    var byteLength, index := 0, 0;
    assert value[..0] == [];
    while index < |value|
      invariant Boundary(value, index)
      invariant byteLength == ByteLength(value[..index]) <= maximumBytes
      decreases |value| - index
    {
      ByteLengthStep(value, index);
      var characterBytes := CodePointBytes(CodePointAt(value, index));
      if byteLength + characterBytes > maximumBytes {
        forall k | index < k <= |value| && Boundary(value, k)
          ensures ByteLength(value[..k]) > maximumBytes
        {
          ByteLengthMonotone(value, index + Width(value, index), k);
        }
        break;
      }
      byteLength := byteLength + characterBytes;
      index := index + Width(value, index);
    }
    result := value[..index];
    PrefixEndIsLongest(value, maximumBytes);
    LongestPrefixUnique(value, maximumBytes, index, PrefixEnd(value, maximumBytes));
  }

  function NameWithSuffix(name: Text, suffix: Text): Text {
    var suffixBytes := ByteLength(suffix);
    var room := if suffixBytes <= MAXIMUM_SAVED_SEARCH_NAME_BYTES
                then MAXIMUM_SAVED_SEARCH_NAME_BYTES - suffixBytes else 0;
    var base := TrimEnd(Truncated(Trim(name), room));
    Trim(base + suffix)
  }

  /** ` copy` for the first copy, ` copy N` for the others, without the leading space. */
  function SuffixWords(copyNumber: nat): Text {
    if copyNumber <= 1 then Ascii("copy") else Ascii("copy") + [SPACE] + Decimal(copyNumber)
  }

  function DuplicateName(name: Text, copyNumber: nat): Text {
    NameWithSuffix(name, [SPACE] + SuffixWords(copyNumber))
  }

  // ---------- Different numbers give different names ----------

  lemma {:induction false} TrimStartKeepsTail(front: Text, tail: Text) returns (rest: Text)
    requires tail != [] && !IsSpace(tail[0])
    ensures TrimStart(front + tail) == rest + tail
  {
    if front == [] {
      assert front + tail == tail;
      rest := [];
      assert rest + tail == tail;
    } else if IsSpace(front[0]) {
      assert (front + tail)[1..] == front[1..] + tail;
      rest := TrimStartKeepsTail(front[1..], tail);
    } else {
      rest := front;
    }
  }

  lemma WordsEdges(copyNumber: nat)
    ensures var w := SuffixWords(copyNumber);
      w != [] && !IsSpace(w[0]) && !IsSpace(w[|w| - 1])
      && (IsDigit(w[|w| - 1]) <==> copyNumber > 1)
  {
  }

  /** Whatever is cut or trimmed, a copy name ends in its suffix words. */
  lemma EndsInWords(name: Text, copyNumber: nat) returns (front: Text)
    ensures DuplicateName(name, copyNumber) == front + SuffixWords(copyNumber)
  {
    hide PrefixEnd, ByteLength, SuffixWords;
    var words := SuffixWords(copyNumber);
    WordsEdges(copyNumber);
    var suffix := [SPACE] + words;
    var room := if ByteLength(suffix) <= 255 then 255 - ByteLength(suffix) else 0;
    var base := TrimEnd(Truncated(Trim(name), room));
    assert base + suffix == (base + [SPACE]) + words;
    front := TrimStartKeepsTail(base + [SPACE], words);
    var r := front + words;
    assert r[|r| - 1] == words[|words| - 1];
    assert TrimEnd(r) == r;
  }

  /** The digits after the last space are the same in equal texts. */
  lemma {:induction false} TrailingDigits(f: Text, d: Text, g: Text, e: Text)
    requires AllDigits(d) && AllDigits(e)
    requires f + [SPACE] + d == g + [SPACE] + e
    ensures d == e
  {
    var t, u := f + [SPACE] + d, g + [SPACE] + e;
    assert t[|t| - 1] == if d == [] then SPACE else d[|d| - 1];
    assert u[|u| - 1] == if e == [] then SPACE else e[|e| - 1];
    assert d == [] <==> e == [];
    if d != [] {
      assert t[..|t| - 1] == f + [SPACE] + d[..|d| - 1];
      assert u[..|u| - 1] == g + [SPACE] + e[..|e| - 1];
      TrailingDigits(f, d[..|d| - 1], g, e[..|e| - 1]);
      assert d == d[..|d| - 1] + [d[|d| - 1]] && e == e[..|e| - 1] + [e[|e| - 1]];
    }
  }

  /** A numbered ending splits at its last space. */
  lemma NumberedWords(f: Text, copyNumber: nat)
    requires copyNumber > 1
    ensures f + SuffixWords(copyNumber) == (f + Ascii("copy")) + [SPACE] + Decimal(copyNumber)
  {
  }

  /** Whether a name ends in a digit tells the first copy from the others. */
  lemma FirstOrNumbered(f: Text, a: nat, g: Text, b: nat)
    requires a >= 1 && b >= 1 && f + SuffixWords(a) == g + SuffixWords(b)
    ensures a > 1 <==> b > 1
  {
    WordsEdges(a);
    WordsEdges(b);
    hide SuffixWords;
    var t, u := f + SuffixWords(a), g + SuffixWords(b);
    assert t[|t| - 1] == SuffixWords(a)[|SuffixWords(a)| - 1];
    assert u[|u| - 1] == SuffixWords(b)[|SuffixWords(b)| - 1];
  }

  lemma DuplicateNameInjective(name: Text, a: nat, b: nat)
    requires a >= 1 && b >= 1 && DuplicateName(name, a) == DuplicateName(name, b)
    ensures a == b
  {
    hide DuplicateName, SuffixWords, Decimal;
    var f := EndsInWords(name, a);
    var g := EndsInWords(name, b);
    FirstOrNumbered(f, a, g, b);
    if a > 1 {
      NumberedWords(f, a);
      NumberedWords(g, b);
      TrailingDigits(f + Ascii("copy"), Decimal(a), g + Ascii("copy"), Decimal(b));
      DecimalInjective(a, b);
    }
  }

  // ---------- Every copy name fits ----------

  /** Dropping white space at an edge never lengthens a text. */
  lemma TrimShortens(t: Text)
    ensures ByteLength(Trim(t)) <= ByteLength(t)
  {
    var a, b := TrimSplits(t);
    var m := Trim(t);
    assert Boundary(a + m + b, |a + m|) by {
      assert b != [] ==> (a + m + b)[|a + m|] == b[0];
      assert b != [] && |a + m| > 0 ==> (a + m + b)[|a + m| - 1] == (a + m)[|a + m| - 1];
    }
    ByteLengthConcat(a + m, b);
    assert Boundary(a + m, |a|) by {
      assert a != [] && m != [] ==> (a + m)[|a| - 1] == a[|a| - 1];
    }
    ByteLengthConcat(a, m);
  }

  lemma TrimEndShortens(t: Text)
    ensures ByteLength(TrimEnd(t)) <= ByteLength(t)
  {
    var b := TrimEndSplits(t);
    var m := TrimEnd(t);
    assert Boundary(m + b, |m|) by {
      assert b != [] ==> (m + b)[|m|] == b[0];
    }
    ByteLengthConcat(m, b);
  }

  /** With any suffix that leaves room at all, the name stays within the server's limit. */
  lemma NameFits(name: Text, words: Text)
    requires ByteLength([SPACE] + words) <= MAXIMUM_SAVED_SEARCH_NAME_BYTES
    ensures ByteLength(NameWithSuffix(name, [SPACE] + words)) <= MAXIMUM_SAVED_SEARCH_NAME_BYTES
  {
    hide PrefixEnd, ByteLength, Trim, TrimEnd;
    var suffix := [SPACE] + words;
    var room := MAXIMUM_SAVED_SEARCH_NAME_BYTES - ByteLength(suffix);
    PrefixEndFits(Trim(name), room);
    TrimEndShortens(Truncated(Trim(name), room));
    var base := TrimEnd(Truncated(Trim(name), room));
    assert Boundary(base + suffix, |base|) by {
      assert (base + suffix)[|base|] == SPACE;
    }
    ByteLengthConcat(base, suffix);
    TrimShortens(base + suffix);
  }

  // ---------- A copy name keeps the name ----------

  /** Where the name is cut: the longest prefix of whole code points that leaves the suffix its bytes of 255. */
  ghost predicate CutFor(trimmed: Text, suffix: Text, length: nat) {
    && Boundary(trimmed, length) && ByteLength(trimmed[..length]) + ByteLength(suffix) <= 255
    && forall k | length < k <= |trimmed| && Boundary(trimmed, k) ::
         ByteLength(trimmed[..k]) + ByteLength(suffix) > 255
  }

  lemma TrimEndKeepsStart(t: Text)
    requires t != [] && !IsSpace(t[0])
    ensures TrimEnd(t) != [] && TrimEnd(t)[0] == t[0]
  {
    var b := TrimEndSplits(t);
    assert (TrimEnd(t) + b)[0] == t[0];
  }

  /** The name, cut there and without white space at the cut, goes before the suffix, whole code points only. */
  lemma SuffixFollowsName(name: Text, words: Text) returns (length: nat)
    requires words != [] && Trimmed(words) && ByteLength([SPACE] + words) <= 255
    ensures CutFor(Trim(name), [SPACE] + words, length)
    ensures NameWithSuffix(name, [SPACE] + words)
         == if length == 0 then words else TrimEnd(Trim(name)[..length]) + [SPACE] + words
  {
    var room := 255 - ByteLength([SPACE] + words);
    PrefixEndIsLongest(Trim(name), room);
    length := PrefixEnd(Trim(name), room);
    hide PrefixEnd, ByteLength, Trim, TrimEnd, Boundary;
    var a, b := TrimSplits(name);
    JoinedName(Trim(name)[..length], words);
  }

  lemma JoinedName(cut: Text, words: Text)
    requires words != [] && Trimmed(words) && (cut == [] || !IsSpace(cut[0]))
    ensures Trim(TrimEnd(cut) + ([SPACE] + words)) == if cut == [] then words else TrimEnd(cut) + [SPACE] + words
  {
    if cut == [] {
      SuffixAlone(words);
    } else {
      TrimEndKeepsStart(cut);
      SuffixBehind(TrimEnd(cut), words);
    }
  }

  lemma SuffixAlone(words: Text)
    requires Trimmed(words)
    ensures Trim([] + ([SPACE] + words)) == words
  {
    hide Trim;
    TrimUnique([SPACE], words, []);
    assert [SPACE] + words + [] == [] + ([SPACE] + words);
  }

  lemma SuffixBehind(base: Text, words: Text)
    requires base != [] && !IsSpace(base[0]) && words != [] && Trimmed(words)
    ensures Trim(base + ([SPACE] + words)) == base + [SPACE] + words
  {
    hide Trim;
    var all := base + ([SPACE] + words);
    assert all[0] == base[0] && all[|all| - 1] == words[|words| - 1];
    TrimKeepsTrimmed(all);
  }

  /** A name that fits with the suffix is kept whole. */
  lemma FittingNameIsKept(name: Text, words: Text)
    requires words != [] && Trimmed(words) && Trim(name) != []
    requires ByteLength(Trim(name)) + ByteLength([SPACE] + words) <= 255
    ensures NameWithSuffix(name, [SPACE] + words) == Trim(name) + [SPACE] + words
  {
    hide ByteLength, NameWithSuffix;
    var length := SuffixFollowsName(name, words);
    var trimmed := Trim(name);
    assert trimmed[..|trimmed|] == trimmed;
    assert length == |trimmed|;
    var a, b := TrimSplits(name);
    assert TrimEnd(trimmed) == trimmed;
  }

  lemma WordsAre(copyNumber: nat)
    ensures var words := SuffixWords(copyNumber);
      && words == (if copyNumber <= 1 then Ascii("copy") else Ascii("copy ") + Decimal(copyNumber))
      && words != [] && Trimmed(words) && ByteLength([SPACE] + words) == 1 + |words|
  {
    var words := SuffixWords(copyNumber);
    assert forall i | 0 <= i < |words| :: words[i] <= 0x7F;
    AsciiBytes([SPACE] + words);
  }

  /**
    * The copy of a saved search is called by its name, as far as 255 bytes allow, and "copy", with the
    * number of the copy from the second on.
    */
  lemma DuplicateNameKeepsName(name: Text, copyNumber: nat) returns (length: nat)
    requires |Decimal(copyNumber)| <= 249
    ensures var words := if copyNumber <= 1 then Ascii("copy") else Ascii("copy ") + Decimal(copyNumber);
      && CutFor(Trim(name), [SPACE] + words, length)
      && DuplicateName(name, copyNumber)
           == (if length == 0 then words else TrimEnd(Trim(name)[..length]) + [SPACE] + words)
      && (Trim(name) != [] && ByteLength(Trim(name)) + 1 + |words| <= 255 ==>
            DuplicateName(name, copyNumber) == Trim(name) + [SPACE] + words)
  {
    WordsAre(copyNumber);
    hide SuffixWords, NameWithSuffix, ByteLength, Trim;
    length := SuffixFollowsName(name, SuffixWords(copyNumber));
    if Trim(name) != [] && ByteLength(Trim(name)) + 1 + |SuffixWords(copyNumber)| <= 255 {
      FittingNameIsKept(name, SuffixWords(copyNumber));
    }
  }

  /** So is a copy with a drawn identifier of the 32 digits and letters of a UUID. */
  lemma RandomNameKeepsName(name: Text, entropy: Text) returns (length: nat)
    requires |entropy| <= 249 && entropy != [] && forall i | 0 <= i < |entropy| :: 0x20 < entropy[i] < 0x7F
    ensures var words := Ascii("copy ") + entropy;
      && CutFor(Trim(name), [SPACE] + words, length)
      && RandomName(name, entropy) == (if length == 0 then words else TrimEnd(Trim(name)[..length]) + [SPACE] + words)
      && (Trim(name) != [] && ByteLength(Trim(name)) + 6 + |entropy| <= 255 ==>
            RandomName(name, entropy) == Trim(name) + [SPACE] + words)
  {
    var words := Ascii("copy ") + entropy;
    assert words == Ascii("copy") + [SPACE] + entropy && words[0] == 'c' as int;
    assert words[|words| - 1] == entropy[|entropy| - 1];
    AsciiBytes([SPACE] + words);
    hide NameWithSuffix, ByteLength, Trim;
    length := SuffixFollowsName(name, words);
    if Trim(name) != [] && ByteLength(Trim(name)) + 6 + |entropy| <= 255 {
      FittingNameIsKept(name, words);
    }
  }

  // ---------- The first free copy number ----------

  function Candidates(name: Text, n: nat): set<Text> {
    set k | 1 <= k <= n :: DuplicateName(name, k)
  }

  lemma {:induction false} CandidatesCount(name: Text, n: nat)
    ensures |Candidates(name, n)| == n
  {
    hide DuplicateName;
    if n > 0 {
      CandidatesCount(name, n - 1);
      var last := DuplicateName(name, n);
      forall k | 1 <= k <= n - 1 ensures DuplicateName(name, k) != last {
        if DuplicateName(name, k) == last {
          DuplicateNameInjective(name, k, n);
        }
      }
      assert Candidates(name, n) == Candidates(name, n - 1) + {last};
    } else {
      assert Candidates(name, 0) == {};
    }
  }

  lemma SubsetCount(a: set<Text>, b: set<Text>)
    requires a <= b
    ensures |a| <= |b|
  {
    assert b == a + (b - a);
  }

  /** Counts up to the first number whose name is not in use: at most one more than the names in use. */
  method NextDuplicateSavedSearchName(name: Text, visible: seq<Text>, attempted: set<Text>)
    returns (candidate: Text, copyNumber: nat)
    ensures copyNumber >= 1 && candidate == DuplicateName(name, copyNumber)
    ensures candidate !in visible && candidate !in attempted
    ensures forall k | 1 <= k < copyNumber :: DuplicateName(name, k) in visible || DuplicateName(name, k) in attempted
    ensures copyNumber <= |(set n | n in visible) + attempted| + 1
  {
    hide DuplicateName;
    var names := (set n | n in visible) + attempted;
    copyNumber := 1;
    candidate := DuplicateName(name, copyNumber);
    InUseBound(name, 0, names);
    while candidate in names
      invariant copyNumber >= 1 && candidate == DuplicateName(name, copyNumber)
      invariant forall k | 1 <= k < copyNumber :: DuplicateName(name, k) in names
      invariant copyNumber <= |names| + 1
      decreases |names| + 1 - copyNumber
    {
      InUseBound(name, copyNumber, names);
      copyNumber := copyNumber + 1;
      candidate := DuplicateName(name, copyNumber);
    }
  }

  /** As many numbers as are all in use cannot exceed the names in use. */
  lemma InUseBound(name: Text, n: nat, names: set<Text>)
    requires forall k | 1 <= k <= n :: DuplicateName(name, k) in names
    ensures n <= |names|
  {
    CandidatesCount(name, n);
    SubsetCount(Candidates(name, n), names);
  }

  // ---------- The duplicate action ----------

  datatype Answer = Copied | Conflict | OtherError

  /** What one action leaves behind for the next one on the same saved search. */
  datatype Pending = Pending(sourceId: Text, candidate: Text)

  datatype Result = Succeeded | Threw | Exhausted

  const DUPLICATE_NAME_ATTEMPTS: nat :=
    MAXIMUM_READABLE_DUPLICATE_NAME_ATTEMPTS + MAXIMUM_RANDOM_DUPLICATE_NAME_ATTEMPTS

  /** `randomDuplicateSavedSearchName`, with the identifier it drew. */
  function RandomName(name: Text, entropy: Text): Text {
    NameWithSuffix(name, [SPACE] + (Ascii("copy") + [SPACE] + entropy))
  }

  predicate Drawn(name: Text, draws: nat -> Text, k: nat, candidate: Text) {
    candidate == RandomName(name, draws(k))
  }

  /** From this draw on, a name will come that has not been tried. */
  ghost predicate Escapes(name: Text, draws: nat -> Text, tried: set<Text>, from: nat) {
    exists k: nat :: k >= from && RandomName(name, draws(k)) !in tried
  }

  /** Randomness as far as one action needs it: its few names never use up what is still to be drawn. */
  ghost predicate KeepsVarying(name: Text, draws: nat -> Text) {
    forall tried: set<Text>, from: nat | |tried| < DUPLICATE_NAME_ATTEMPTS :: Escapes(name, draws, tried, from)
  }

  function Numeral(k: nat): Text {
    Decimal(k + 2)
  }

  lemma UnionCount(a: set<Text>, b: set<Text>)
    ensures |a + b| <= |a| + |b|
  {
  }

  /** Even drawing successive numbers varies enough, for any names tried before. */
  lemma NumbersEscape(name: Text, tried: set<Text>, from: nat)
    ensures Escapes(name, Numeral, tried, from)
  {
    hide DuplicateName;
    if !Escapes(name, Numeral, tried, from) {
      var n := from + 2 + |tried|;
      forall k: nat | from + 2 <= k <= n ensures DuplicateName(name, k) in tried {
        SameName(name, k);
      }
      SubsetCount(Candidates(name, n), Candidates(name, from + 1) + tried);
      UnionCount(Candidates(name, from + 1), tried);
      CandidatesCount(name, n);
      CandidatesCount(name, from + 1);
      assert false;
    }
  }

  lemma SameName(name: Text, k: nat)
    requires k >= 2
    ensures RandomName(name, Numeral(k - 2)) == DuplicateName(name, k)
  {
  }

  lemma NumbersKeepVarying(name: Text)
    ensures KeepsVarying(name, Numeral)
  {
    forall tried: set<Text>, from: nat ensures Escapes(name, Numeral, tried, from) {
      NumbersEscape(name, tried, from);
    }
  }

  /** Draws until a name has not been tried; `next` is the first draw not yet used. */
  method DrawUntried(name: Text, tried: set<Text>, draws: nat -> Text, from: nat)
    returns (candidate: Text, next: nat)
    requires KeepsVarying(name, draws) && |tried| < DUPLICATE_NAME_ATTEMPTS
    ensures next > from && Drawn(name, draws, next - 1, candidate) && candidate !in tried
    ensures forall k: nat | from <= k < next - 1 :: RandomName(name, draws(k)) in tried
  {
    hide RandomName;
    assert Escapes(name, draws, tried, from);
    ghost var stop: nat :| stop >= from && RandomName(name, draws(stop)) !in tried;
    candidate := RandomName(name, draws(from));
    next := from + 1;
    while candidate in tried
      invariant from < next <= stop + 1 && candidate == RandomName(name, draws(next - 1))
      invariant forall k: nat | from <= k < next - 1 :: RandomName(name, draws(k)) in tried
      decreases stop + 1 - next
    {
      candidate := RandomName(name, draws(next));
      next := next + 1;
    }
  }

  lemma {:induction false} TriedCount(tried: seq<Text>)
    ensures |set n | n in tried| <= |tried|
  {
    if tried != [] {
      var front := tried[..|tried| - 1];
      TriedCount(front);
      assert (set n | n in tried) == (set n | n in front) + {tried[|tried| - 1]};
    }
  }

  predicate Kept(pending: Option<Pending>, id: Text) {
    pending.Some? && pending.value.sourceId == id
  }

  predicate Numbered(name: Text, k: nat, candidate: Text) {
    k >= 1 && candidate == DuplicateName(name, k)
  }

  /** The copy with the lowest number whose name is neither visible nor tried. */
  ghost predicate FirstFree(name: Text, visible: seq<Text>, tried: seq<Text>, candidate: Text) {
    exists k: nat :: Numbered(name, k, candidate) && candidate !in visible && candidate !in tried
      && forall j | 1 <= j < k :: DuplicateName(name, j) in visible || DuplicateName(name, j) in tried
  }

  /** The name that is asked for after those: a kept one first, then eight readable ones, then random ones. */
  ghost predicate AskedAfter(id: Text, name: Text, visible: seq<Text>, pending: Option<Pending>, draws: nat -> Text,
                             tried: seq<Text>, candidate: Text)
  {
    if |tried| == 0 && Kept(pending, id) then candidate == pending.value.candidate
    else if |tried| < 8 then FirstFree(name, visible, tried, candidate)
    else exists k: nat :: Drawn(name, draws, k, candidate)
  }

  /** A name this action has not tried: the kept one first, then readable ones, then random ones. */
  method ChooseName(id: Text, name: Text, visible: seq<Text>, tried: seq<Text>, pending: Option<Pending>,
                    draws: nat -> Text, from: nat) returns (candidate: Text, next: nat)
    requires KeepsVarying(name, draws) && |tried| < DUPLICATE_NAME_ATTEMPTS
    requires |tried| > 0 ==> pending.None?
    ensures candidate !in tried && next >= from
    ensures Kept(pending, id) ==> candidate == pending.value.candidate
    ensures AskedAfter(id, name, visible, pending, draws, tried, candidate)
    ensures |tried| >= MAXIMUM_READABLE_DUPLICATE_NAME_ATTEMPTS ==>
      && next > from && Drawn(name, draws, next - 1, candidate)
      && forall k: nat | from <= k < next - 1 :: RandomName(name, draws(k)) in tried
  {
    var attempted := set n | n in tried;
    next := from;
    if |tried| == 0 && pending.Some? && pending.value.sourceId == id {
      candidate := pending.value.candidate;
    } else if |tried| < MAXIMUM_READABLE_DUPLICATE_NAME_ATTEMPTS {
      var copyNumber;
      candidate, copyNumber := NextDuplicateSavedSearchName(name, visible, attempted);
      assert Numbered(name, copyNumber, candidate);
      assert FirstFree(name, visible, tried, candidate);
    } else {
      TriedCount(tried);
      candidate, next := DrawUntried(name, attempted, draws, from);
    }
  }

  /** The names asked for so far, all refused; the action ends at the first other answer. */
  method AttemptDuplicate(id: Text, name: Text, visible: seq<Text>, tried: seq<Text>, pending: Option<Pending>,
                          answers: seq<Answer>, draws: nat -> Text, from: nat)
    returns (all: seq<Text>, result: Result, left: Option<Pending>)
    requires |tried| <= DUPLICATE_NAME_ATTEMPTS <= |answers|
    requires Distinct(tried) && KeepsVarying(name, draws)
    requires forall i | 0 <= i < |tried| :: answers[i] == Conflict
    requires |tried| > 0 ==> pending.None?
    ensures Distinct(all) && tried <= all && |all| <= DUPLICATE_NAME_ATTEMPTS
    ensures forall i | 0 <= i < |all| - 1 :: answers[i] == Conflict
    ensures result == Exhausted <==>
      |all| == DUPLICATE_NAME_ATTEMPTS && answers[DUPLICATE_NAME_ATTEMPTS - 1] == Conflict
    ensures result == Succeeded ==> |all| > 0 && answers[|all| - 1] == Copied
    // After another error the name is kept for a retry; after a conflict it is not.
    ensures result == Threw ==>
      |all| > 0 && answers[|all| - 1] == OtherError && left == Some(Pending(id, all[|all| - 1]))
    ensures result == Exhausted ==> left.None?
    ensures forall i | |tried| <= i < |all| :: AskedAfter(id, name, visible, pending, draws, all[..i], all[i])
    decreases DUPLICATE_NAME_ATTEMPTS - |tried|
  {
    hide KeepsVarying, DuplicateName, RandomName, FirstFree, Drawn;
    var attempt := |tried|;
    if attempt >= DUPLICATE_NAME_ATTEMPTS {
      return tried, Exhausted, None;
    }
    var candidate, next := ChooseName(id, name, visible, tried, pending, draws, from);
    var now := tried + [candidate];
    match answers[attempt] {
      case Copied =>
        return now, Succeeded, None;
      case OtherError =>
        return now, Threw, Some(Pending(id, candidate));
      case Conflict =>
        all, result, left := AttemptDuplicate(id, name, visible, now, None, answers, draws, next);
        assert all[..attempt] == tried && all[attempt] == candidate;
    }
  }

  /** One click: a bounded number of pairwise distinct names, stopping at the first real answer. */
  method DuplicateSavedSearch(id: Text, name: Text, visible: seq<Text>, pending: Option<Pending>,
                              answers: seq<Answer>, draws: nat -> Text)
    returns (all: seq<Text>, result: Result, left: Option<Pending>)
    requires DUPLICATE_NAME_ATTEMPTS <= |answers| && KeepsVarying(name, draws)
    ensures Distinct(all) && 1 <= |all| <= 8 + 3
    ensures forall i | 0 <= i < |all| - 1 :: answers[i] == Conflict
    ensures result == Threw ==> left == Some(Pending(id, all[|all| - 1]))
    ensures forall i | 0 <= i < |all| :: AskedAfter(id, name, visible, pending, draws, all[..i], all[i])
    ensures result == Exhausted <==> |all| == 11 && answers[10] == Conflict
  {
    all, result, left := AttemptDuplicate(id, name, visible, [], pending, answers, draws, 0);
  }
}
