/**
  * app/admin/admin-resource-data.ts: the comma-separated list of index names in an app form, and
  * the comparison of two lists of strings without regard to order.
  */
module IndexNames {
  import opened Wrappers
  import opened JsText

  // ---------- Sorting ----------

  /** Ascending in code-unit order; equal texts may repeat. */
  predicate Sorted(s: seq<Text>) {
    forall i, j | 0 <= i < j < |s| :: !Less(s[j], s[i])
  }

  predicate StrictlySorted(s: seq<Text>) {
    forall i, j | 0 <= i < j < |s| :: Less(s[i], s[j])
  }

  function Insert(x: Text, s: seq<Text>): seq<Text> {
    if s == [] then [x]
    else if Less(s[0], x) then [s[0]] + Insert(x, s[1..])
    else [x] + s
  }

  /** `toSorted()` of strings. */
  function Sort(s: seq<Text>): seq<Text> {
    if s == [] then [] else Insert(s[0], Sort(s[1..]))
  }

  lemma {:induction false} InsertMultiset(x: Text, s: seq<Text>)
    ensures multiset(Insert(x, s)) == multiset{x} + multiset(s)
  {
    if s != [] {
      assert s == [s[0]] + s[1..];
      if Less(s[0], x) {
        InsertMultiset(x, s[1..]);
      }
    }
  }

  lemma {:induction false} SortMultiset(s: seq<Text>)
    ensures multiset(Sort(s)) == multiset(s)
  {
    if s != [] {
      SortMultiset(s[1..]);
      InsertMultiset(s[0], Sort(s[1..]));
      assert s == [s[0]] + s[1..];
    }
  }

  /** Not above and not above gives not above. */
  lemma NotAboveTransitive(a: Text, b: Text, c: Text)
    requires !Less(b, a) && !Less(c, b)
    ensures !Less(c, a)
  {
  }

  lemma PrependSorted(x: Text, s: seq<Text>)
    requires Sorted(s) && (s == [] || !Less(s[0], x))
    ensures Sorted([x] + s)
  {
    var t := [x] + s;
    forall i, j | 0 <= i < j < |t| ensures !Less(t[j], t[i]) {
      if i == 0 && j > 1 {
        assert !Less(s[j - 1], s[0]);
        NotAboveTransitive(x, s[0], s[j - 1]);
      }
    }
  }

  lemma {:induction false} InsertSorted(x: Text, s: seq<Text>)
    requires Sorted(s)
    ensures Sorted(Insert(x, s))
    ensures Insert(x, s) != [] && (Insert(x, s)[0] == x || (s != [] && Insert(x, s)[0] == s[0]))
  {
    if s != [] && Less(s[0], x) {
      InsertSorted(x, s[1..]);
      LessTrichotomy(s[0], x);
      PrependSorted(s[0], Insert(x, s[1..]));
    } else {
      PrependSorted(x, s);
      assert [x] + [] == [x];
    }
  }

  lemma {:induction false} SortSorts(s: seq<Text>)
    ensures Sorted(Sort(s))
  {
    if s != [] {
      SortSorts(s[1..]);
      InsertSorted(s[0], Sort(s[1..]));
    }
  }

  /** Nothing in a sorted list is below its head. */
  lemma HeadIsLeast(s: seq<Text>, x: Text)
    requires Sorted(s) && x in multiset(s)
    ensures s != [] && !Less(x, s[0])
  {
    var i :| 0 <= i < |s| && s[i] == x;
    LessIrreflexive(s[0]);
  }

  lemma HeadsAgree(a: seq<Text>, b: seq<Text>)
    requires Sorted(a) && Sorted(b) && multiset(a) == multiset(b) && a != []
    ensures b != [] && a[0] == b[0]
  {
    assert a[0] in multiset(a);
    HeadIsLeast(b, a[0]);
    assert b[0] in multiset(b);
    HeadIsLeast(a, b[0]);
    LessTrichotomy(a[0], b[0]);
  }

  lemma TailMultiset(a: seq<Text>)
    requires a != []
    ensures multiset(a[1..]) == multiset(a) - multiset{a[0]}
  {
    assert a == [a[0]] + a[1..];
  }

  /** A multiset has one sorted list. */
  lemma {:induction false} SortedUnique(a: seq<Text>, b: seq<Text>)
    requires Sorted(a) && Sorted(b) && multiset(a) == multiset(b)
    ensures a == b
  {
    if a == [] {
      assert |multiset(b)| == 0;
    } else {
      HeadsAgree(a, b);
      TailMultiset(a);
      TailMultiset(b);
      TailSorted(a);
      TailSorted(b);
      hide Sorted;
      SortedUnique(a[1..], b[1..]);
      assert a == [a[0]] + a[1..] && b == [b[0]] + b[1..];
    }
  }

  lemma TailSorted(a: seq<Text>)
    requires Sorted(a) && a != []
    ensures Sorted(a[1..])
  {
  }

  /** `sameStrings`: sorted copies, compared length first and then place by place. */
  predicate SameStrings(left: seq<Text>, right: seq<Text>) {
    var a, b := Sort(left), Sort(right);
    |a| == |b| && forall i | 0 <= i < |a| :: a[i] == b[i]
  }

  /** It holds exactly of lists with the same strings as often. */
  lemma SameStringsIsMultisetEquality(left: seq<Text>, right: seq<Text>)
    ensures SameStrings(left, right) <==> multiset(left) == multiset(right)
  {
    SortMultiset(left);
    SortMultiset(right);
    SortSorts(left);
    SortSorts(right);
    if SameStrings(left, right) {
      assert Sort(left) == Sort(right);
    }
    if multiset(left) == multiset(right) {
      SortedUnique(Sort(left), Sort(right));
    }
  }

  // ---------- Splitting ----------

  /** `split(",")`. */
  function Pieces(t: Text): (r: seq<Text>)
    ensures r != []
  {
    if t == [] then [[]]
    else if t[0] == COMMA then [[]] + Pieces(t[1..])
    else
      var rest := Pieces(t[1..]);
      [[t[0]] + rest[0]] + rest[1..]
  }

  /** The pieces with a comma between any two. */
  function WithCommas(pieces: seq<Text>): Text {
    if pieces == [] then []
    else if |pieces| == 1 then pieces[0]
    else pieces[0] + [COMMA] + WithCommas(pieces[1..])
  }

  /** The pieces hold no comma, and with commas between them they are the text again. */
  lemma {:induction false} PiecesJoinBack(t: Text)
    ensures forall p | p in Pieces(t) :: COMMA !in p
    ensures WithCommas(Pieces(t)) == t
  {
    PiecesHaveNoComma(t);
    if t != [] {
      PiecesJoinBack(t[1..]);
      var rest := Pieces(t[1..]);
      if t[0] == COMMA {
        assert ([[]] + rest)[1..] == rest;
      } else {
        var first := [t[0]] + rest[0];
        assert ([first] + rest[1..])[1..] == rest[1..];
      }
    }
  }

  /** The trimmed pieces that are not empty, each once. */
  function Names(pieces: seq<Text>): set<Text> {
    set p | p in pieces && Trim(p) != [] :: Trim(p)
  }

  /** The members of a `Set` built in order: the first occurrence of each name. */
  function Collect(pieces: seq<Text>): seq<Text> {
    if pieces == [] then []
    else
      var front, name := Collect(pieces[..|pieces| - 1]), Trim(pieces[|pieces| - 1]);
      if name == [] || name in front then front else front + [name]
  }

  function SplitIndexNames(value: Text): seq<Text> {
    Sort(Collect(Pieces(value)))
  }

  lemma {:induction false} CollectIs(pieces: seq<Text>)
    ensures Distinct(Collect(pieces))
    ensures (set n | n in Collect(pieces)) == Names(pieces)
  {
    if pieces != [] {
      var k := |pieces| - 1;
      var front := pieces[..k];
      CollectIs(front);
      assert pieces == front + [pieces[k]];
      assert Names(pieces) == Names(front) + (if Trim(pieces[k]) == [] then {} else {Trim(pieces[k])});
    }
  }

  lemma SortedDistinctIsStrict(s: seq<Text>)
    requires Sorted(s) && Distinct(s)
    ensures StrictlySorted(s)
  {
    forall i, j | 0 <= i < j < |s| ensures Less(s[i], s[j]) {
      LessTrichotomy(s[i], s[j]);
    }
  }

  lemma {:induction false} SameMultisetDistinct(a: seq<Text>, b: seq<Text>)
    requires multiset(a) == multiset(b) && Distinct(a)
    ensures Distinct(b)
  {
    if b != [] {
      forall x ensures multiset(a)[x] <= 1 {
        DistinctCounts(a, x);
      }
      forall i, j | 0 <= i < j < |b| ensures b[i] != b[j] {
        TwiceCounts(b, i, j);
      }
    }
  }

  lemma {:induction false} DistinctCounts(s: seq<Text>, x: Text)
    requires Distinct(s)
    ensures multiset(s)[x] <= 1
  {
    if s != [] {
      DistinctCounts(s[1..], x);
      assert s == [s[0]] + s[1..];
      if x == s[0] {
        assert x !in s[1..];
      }
    }
  }

  lemma TwiceCounts(s: seq<Text>, i: nat, j: nat)
    requires i < j < |s|
    ensures s[i] == s[j] ==> multiset(s)[s[i]] >= 2
  {
    assert s == s[..j] + [s[j]] + s[j + 1..];
    assert s[..j] == s[..i] + [s[i]] + s[i + 1..j];
  }

  /** What an index-name list may look like after splitting. */
  predicate Normal(names: seq<Text>) {
    && StrictlySorted(names)
    && forall n | n in names :: n != [] && Trimmed(n) && COMMA !in n
  }

  lemma {:induction false} PiecesHaveNoComma(t: Text)
    ensures forall p | p in Pieces(t) :: COMMA !in p
  {
    if t != [] {
      PiecesHaveNoComma(t[1..]);
      var rest := Pieces(t[1..]);
      assert rest[0] in rest;
    }
  }

  lemma TrimHasNoComma(p: Text)
    requires COMMA !in p
    ensures COMMA !in Trim(p)
  {
    var a, b := TrimSplits(p);
  }

  lemma NamesAreClean(pieces: seq<Text>)
    requires forall p | p in pieces :: COMMA !in p
    ensures forall n | n in Names(pieces) :: n != [] && Trimmed(n) && COMMA !in n
  {
    forall p | p in pieces ensures Trimmed(Trim(p)) && COMMA !in Trim(p) {
      var a, b := TrimSplits(p);
      TrimHasNoComma(p);
    }
  }

  lemma SameElements(a: seq<Text>, b: seq<Text>)
    requires multiset(a) == multiset(b)
    ensures (set n | n in a) == (set n | n in b)
  {
    assert forall n :: n in a <==> n in multiset(a);
    assert forall n :: n in b <==> n in multiset(b);
  }

  /** Splitting lists exactly the trimmed, non-empty pieces, sorted and without repetition. */
  lemma SplitLists(value: Text)
    ensures Normal(SplitIndexNames(value))
    ensures (set n | n in SplitIndexNames(value)) == Names(Pieces(value))
  {
    hide Sort, Collect, Pieces, Names, Sorted, StrictlySorted, Distinct;
    var collected := Collect(Pieces(value));
    var names := Sort(collected);
    CollectIs(Pieces(value));
    SortSorts(collected);
    SortMultiset(collected);
    SameMultisetDistinct(collected, names);
    SortedDistinctIsStrict(names);
    SameElements(collected, names);
    PiecesHaveNoComma(value);
    NamesAreClean(Pieces(value));
    assert forall n | n in names :: n in set m | m in names;
  }

  // ---------- Joining ----------

  /** `join(", ")`. */
  function Join(names: seq<Text>): Text {
    if names == [] then []
    else if |names| == 1 then names[0]
    else names[0] + [COMMA, SPACE] + Join(names[1..])
  }

  lemma {:induction false} PiecesOfFirst(name: Text, rest: Text)
    requires COMMA !in name
    ensures Pieces(name + [COMMA] + rest) == [name] + Pieces(rest)
    ensures Pieces(name) == [name]
  {
    var t := name + [COMMA] + rest;
    if name == [] {
      assert t[1..] == rest;
    } else {
      assert t[1..] == name[1..] + [COMMA] + rest;
      PiecesOfFirst(name[1..], rest);
      assert [name[0]] + name[1..] == name;
    }
  }

  /** With a space in front, only the first piece changes. */
  lemma PiecesAfterSpace(t: Text)
    ensures Pieces([SPACE] + t) == [[SPACE] + Pieces(t)[0]] + Pieces(t)[1..]
  {
  }

  lemma TrimDropsSpace(n: Text)
    ensures Trim([SPACE] + n) == Trim(n)
  {
  }

  lemma NamesUncons(first: Text, rest: seq<Text>)
    ensures Names([first] + rest) == (if Trim(first) == [] then {} else {Trim(first)}) + Names(rest)
  {
  }

  /** The pieces of a joined list name the list's own names. */
  lemma {:induction false} JoinedNames(names: seq<Text>)
    requires forall n | n in names :: n != [] && Trimmed(n) && COMMA !in n
    ensures Names(Pieces(Join(names))) == set n | n in names
  {
    if names == [] {
      var none: Text := [];
      assert Pieces(none) == [none];
      assert Trim(none) == [];
    } else {
      var first, rest := names[0], names[1..];
      assert first in names;
      TrimKeepsTrimmed(first);
      forall n | n in rest ensures n in names {
      }
      if rest == [] {
        PiecesOfFirst(first, []);
        NamesUncons(first, []);
        assert [first] + [] == [first];
        assert names == [first];
      } else {
        JoinedNames(rest);
        NamesOfJoin(first, Join(rest));
        assert Join(names) == first + [COMMA] + ([SPACE] + Join(rest));
        assert names == [first] + rest;
      }
    }
  }

  lemma NamesOfJoin(first: Text, tail: Text)
    requires first != [] && Trimmed(first) && COMMA !in first
    ensures Names(Pieces(first + [COMMA] + ([SPACE] + tail))) == {first} + Names(Pieces(tail))
  {
    hide Names, Trim, Trimmed;
    PiecesOfFirst(first, [SPACE] + tail);
    PiecesAfterSpace(tail);
    TrimKeepsTrimmed(first);
    var p := Pieces(tail);
    assert p == [p[0]] + p[1..];
    NamesUncons(first, Pieces([SPACE] + tail));
    NamesUncons([SPACE] + p[0], p[1..]);
    NamesUncons(p[0], p[1..]);
    TrimDropsSpace(p[0]);
  }

  /** A set has one strictly sorted list. */
  lemma {:induction false} StrictlySortedUnique(a: seq<Text>, b: seq<Text>)
    requires StrictlySorted(a) && StrictlySorted(b)
    requires (set n | n in a) == (set n | n in b)
    ensures a == b
  {
    StrictMultiset(a);
    StrictMultiset(b);
    StrictIsSorted(a);
    StrictIsSorted(b);
    assert multiset(a) == multiset(b);
    SortedUnique(a, b);
  }

  lemma StrictIsSorted(s: seq<Text>)
    requires StrictlySorted(s)
    ensures Sorted(s) && Distinct(s)
  {
    forall i, j | 0 <= i < j < |s| ensures !Less(s[j], s[i]) && s[i] != s[j] {
      LessTrichotomy(s[i], s[j]);
      LessIrreflexive(s[i]);
    }
  }

  lemma StrictMultiset(s: seq<Text>)
    requires StrictlySorted(s)
    ensures multiset(s) == multiset(set n | n in s)
  {
    StrictIsSorted(s);
    forall x ensures multiset(s)[x] == multiset(set n | n in s)[x] {
      DistinctCounts(s, x);
      assert x in s <==> x in multiset(s);
    }
  }

  /**
    * A list survives joining and splitting exactly when it is sorted, distinct, trimmed,
    * non-empty and comma-free in every name.
    */
  lemma JoinSplitRoundTrip(names: seq<Text>)
    ensures SplitIndexNames(Join(names)) == names <==> Normal(names)
  {
    SplitLists(Join(names));
    if Normal(names) {
      JoinedNames(names);
      StrictlySortedUnique(SplitIndexNames(Join(names)), names);
    }
  }

  /** So showing what was split and splitting it again changes nothing, whatever was typed. */
  lemma SplitIsIdempotent(value: Text)
    ensures SplitIndexNames(Join(SplitIndexNames(value))) == SplitIndexNames(value)
  {
    SplitLists(value);
    JoinSplitRoundTrip(SplitIndexNames(value));
  }
}
