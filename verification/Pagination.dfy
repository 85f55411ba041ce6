/** Page tokens: lib/search/server-text.ts, lib/api/pagination.ts and `opaquePageToken`. */
module Pagination {
  import opened Wrappers
  import opened JsText
  import opened Utf8

  const MAXIMUM_AUDIT_PAGE_TOKEN_BYTES: nat := 2048

  /** The runes that Go's strings.TrimSpace removes; unlike `trim`, not the byte-order mark. */
  predicate IsGoSpace(u: CodeUnit) {
    || 0x09 <= u <= 0x0D || u == 0x20 || u == 0x85 || u == 0xA0 || u == 0x1680
    || 0x2000 <= u <= 0x200A || u == 0x2028 || u == 0x2029
    || u == 0x202F || u == 0x205F || u == 0x3000
  }

  predicate IsControl(u: CodeUnit) {
    u <= 0x1F || 0x7F <= u <= 0x9F
  }

  /** A surrogate that belongs to no pair. */
  predicate Unpaired(t: Text, i: nat)
    requires i < |t|
  {
    (IsHigh(t[i]) && !PairAt(t, i)) || (IsLow(t[i]) && !(i > 0 && PairAt(t, i - 1)))
  }

  predicate IsWellFormed(t: Text) {
    forall i: nat | i < |t| :: !Unpaired(t, i)
  }

  predicate CanonicalBounded(t: Text, maximumBytes: nat) {
    && 0 < |t| <= maximumBytes
    && IsWellFormed(t)
    && !IsGoSpace(t[0]) && !IsGoSpace(t[|t| - 1])
    && (forall i | 0 <= i < |t| :: !IsControl(t[i]))
    && ByteLength(t) <= maximumBytes
  }

  /** A missing or empty token means none; a token that is not canonical throws. */
  function OpaquePageToken(token: Option<Text>): Result<Option<Text>, ()> {
    match token
    case None => Ok(None)
    case Some(t) =>
      if t == [] then Ok(None)
      else if CanonicalBounded(t, MAXIMUM_AUDIT_PAGE_TOKEN_BYTES) then Ok(Some(t))
      else Err(())
  }

  /** What `recordNextPageToken` keeps of a token: nothing when trimming leaves nothing. */
  function Normalized(token: Option<Text>): Option<Text> {
    if token.None? || Trim(token.value) == [] then None else Some(Trim(token.value))
  }

  /** A repeated token throws; any other is remembered and returned. */
  function RecordNextPageToken(seen: set<Text>, token: Option<Text>): Result<Option<Text>, ()> {
    match Normalized(token)
    case None => Ok(None)
    case Some(t) => if t in seen then Err(()) else Ok(Some(t))
  }

  function Remember(seen: set<Text>, token: Option<Text>): set<Text> {
    match Normalized(token)
    case None => seen
    case Some(t) => seen + {t}
  }

  /**
    * A canonical token is lost by that normalization exactly when it is all white space, and
    * then it starts with a byte-order mark: the one white space the canonical check lets stand.
    */
  lemma LostTokens(t: Text)
    requires OpaquePageToken(Some(t)) == Ok(Some(t))
    ensures Normalized(Some(t)) == None <==> AllSpace(t)
    ensures AllSpace(t) ==> t[0] == BYTE_ORDER_MARK
  {
    TrimEmpty(t);
  }

  /** One byte-order mark is such a token. */
  lemma ByteOrderMarkIsLost()
    ensures OpaquePageToken(Some([BYTE_ORDER_MARK])) == Ok(Some([BYTE_ORDER_MARK]))
    ensures Normalized(Some([BYTE_ORDER_MARK])) == None
  {
    SingleUnitIsCanonical(BYTE_ORDER_MARK);
    TrimEmpty([BYTE_ORDER_MARK]);
  }

  lemma SingleUnitIsCanonical(u: CodeUnit)
    requires !IsHigh(u) && !IsLow(u) && !IsGoSpace(u) && !IsControl(u)
    ensures CanonicalBounded([u], MAXIMUM_AUDIT_PAGE_TOKEN_BYTES)
  {
  }

  // ---------- What a token must be ----------

  /** Go's white space is ECMAScript's, with the next-line control and without the byte-order mark. */
  lemma GoSpaceIsAlmostSpace(u: CodeUnit)
    ensures IsGoSpace(u) <==> u == 0x85 || (IsSpace(u) && u != BYTE_ORDER_MARK)
  {
  }

  predicate IsSurrogate(codePoint: nat) {
    0xD800 <= codePoint < 0xE000
  }

  lemma UnpairedIsSurrogate(t: Text, i: nat)
    requires i < |t|
    ensures Unpaired(t, i) <==> Boundary(t, i) && IsSurrogate(CodePointAt(t, i))
  {
    if PairAt(t, i) {
      assert CodePointAt(t, i) >= 0x1_0000;
    } else {
      assert CodePointAt(t, i) == t[i];
    }
  }

  /** A text is well-formed exactly when no code point of it is a surrogate. */
  lemma WellFormedWalk(t: Text)
    ensures IsWellFormed(t) <==> forall i: nat | i < |t| && Boundary(t, i) :: !IsSurrogate(CodePointAt(t, i))
  {
    forall i: nat | i < |t| ensures Unpaired(t, i) <==> Boundary(t, i) && IsSurrogate(CodePointAt(t, i)) {
      UnpairedIsSurrogate(t, i);
    }
    hide IsWellFormed, Unpaired, Boundary, CodePointAt;
  }

  lemma {:induction false} UnitsFitBytes(t: Text)
    ensures |t| <= ByteLength(t)
  {
    if t != [] {
      UnitsFitBytes(t[Width(t, 0)..]);
    }
  }

  /**
    * A token is taken if and only if it is missing or empty, or its UTF-8 encoding has at most 2,048 octets,
    * no surrogate is alone, nothing in it is a control, and neither end is white space other than a
    * byte-order mark.
    */
  lemma TokenTakenIff(t: Text)
    ensures OpaquePageToken(None) == Ok(None)
    ensures OpaquePageToken(Some(t)).Ok? <==>
      t == []
      || (&& |EncodeText(t)| <= 2048
          && (forall i: nat | i < |t| && Boundary(t, i) :: !IsSurrogate(CodePointAt(t, i)))
          && (forall u | u in t :: !(u <= 31 || 127 <= u <= 159))
          && (forall i | i == 0 || i == |t| - 1 :: IsSpace(t[i]) ==> t[i] == BYTE_ORDER_MARK))
    ensures OpaquePageToken(Some(t)).Ok? ==> OpaquePageToken(Some(t)) == Ok(if t == [] then None else Some(t))
  {
    ByteLengthCountsOctets(t);
    UnitsFitBytes(t);
    WellFormedWalk(t);
    NoControls(t);
    if t != [] && forall i | 0 <= i < |t| :: !IsControl(t[i]) {
      EdgesAreClean(t);
    }
    hide ByteLength, EncodeText, IsWellFormed, Boundary, CodePointAt, IsSurrogate, IsSpace, IsGoSpace, IsControl;
  }

  lemma NoControls(t: Text)
    ensures (forall i | 0 <= i < |t| :: !IsControl(t[i])) <==> (forall u | u in t :: !(u <= 31 || 127 <= u <= 159))
  {
    forall i | 0 <= i < |t| ensures t[i] in t {
    }
  }

  lemma EdgesAreClean(t: Text)
    requires t != []
    requires forall i | 0 <= i < |t| :: !IsControl(t[i])
    ensures (!IsGoSpace(t[0]) && !IsGoSpace(t[|t| - 1]))
       <==> (forall i | i == 0 || i == |t| - 1 :: IsSpace(t[i]) ==> t[i] == BYTE_ORDER_MARK)
  {
    GoSpaceIsAlmostSpace(t[0]);
    GoSpaceIsAlmostSpace(t[|t| - 1]);
    assert !IsControl(t[0]) && !IsControl(t[|t| - 1]);
    hide IsGoSpace, IsSpace;
  }
}
