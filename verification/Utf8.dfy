/**
  * The UTF-8 length of a UTF-16 string, counted code point by code point the way
  * `codePointAt` and `for ... of` walk it. A lone surrogate counts three bytes.
  */
module Utf8 {
  import opened JsText

  predicate IsHigh(u: CodeUnit) { 0xD800 <= u < 0xDC00 }

  predicate IsLow(u: CodeUnit) { 0xDC00 <= u < 0xE000 }

  /** Two code units at `i` form one surrogate pair. */
  predicate PairAt(t: Text, i: nat) {
    i + 1 < |t| && IsHigh(t[i]) && IsLow(t[i + 1])
  }

  function CodePointAt(t: Text, i: nat): nat
    requires i < |t|
  {
    var unit: int := t[i];
    if PairAt(t, i) then
      var low: int := t[i + 1];
      0x1_0000 + (unit - 0xD800) * 0x400 + (low - 0xDC00)
    else
      unit
  }

  /** Code units taken by the code point at `i`; the source asks whether it exceeds 0xFFFF. */
  function Width(t: Text, i: nat): (w: nat)
    requires i < |t|
    ensures 1 <= w <= 2 && i + w <= |t|
    ensures w == 2 <==> PairAt(t, i)
  {
    if CodePointAt(t, i) > 0xFFFF then 2 else 1
  }

  function CodePointBytes(codePoint: nat): (n: nat)
    ensures 1 <= n <= 4
  {
    if codePoint <= 0x7F then 1
    else if codePoint <= 0x7FF then 2
    else if codePoint <= 0xFFFF then 3
    else 4
  }

  function ByteLength(t: Text): nat {
    if t == [] then 0 else CodePointBytes(CodePointAt(t, 0)) + ByteLength(t[Width(t, 0)..])
  }

  /** An index that does not fall inside a surrogate pair. */
  predicate Boundary(t: Text, i: nat) {
    i <= |t| && !(0 < i < |t| && PairAt(t, i - 1))
  }

  // ---------- Octets of section 3 of RFC 3629 ----------

  type Octet = b: int | 0 <= b < 0x100

  /** The octets of one code point; TextEncoder writes U+FFFD for a lone surrogate. */
  function Encode(codePoint: nat): (octets: seq<Octet>)
    requires codePoint <= 0x10FFFF
    ensures |octets| == CodePointBytes(codePoint)
  {
    if codePoint <= 0x7F then [codePoint]
    else if codePoint <= 0x7FF then [0xC0 + codePoint / 0x40, 0x80 + codePoint % 0x40]
    else if 0xD800 <= codePoint < 0xE000 then [0xEF, 0xBF, 0xBD]
    else if codePoint <= 0xFFFF then
      [0xE0 + codePoint / 0x1000, 0x80 + codePoint / 0x40 % 0x40, 0x80 + codePoint % 0x40]
    else
      [0xF0 + codePoint / 0x4_0000, 0x80 + codePoint / 0x1000 % 0x40,
       0x80 + codePoint / 0x40 % 0x40, 0x80 + codePoint % 0x40]
  }

  /** The code point that a sequence of octets stands for, by its first octet. */
  function Decode(octets: seq<Octet>): int
    requires 1 <= |octets| <= 4
  {
    var first: int := octets[0];
    if |octets| == 1 then first
    else if |octets| == 2 then Continued(first - 0xC0, octets[1])
    else if |octets| == 3 then Continued(Continued(first - 0xE0, octets[1]), octets[2])
    else Continued(Continued(Continued(first - 0xF0, octets[1]), octets[2]), octets[3])
  }

  /** Six more bits. */
  function Continued(n: int, octet: int): int {
    n * 0x40 + (octet - 0x80)
  }

  lemma Sextets(n: nat)
    ensures Continued(n / 0x40, 0x80 + n % 0x40) == n
    ensures Continued(n / 0x1000, 0x80 + n / 0x40 % 0x40) == n / 0x40
    ensures Continued(n / 0x4_0000, 0x80 + n / 0x1000 % 0x40) == n / 0x1000
  {
    assert n / 0x1000 == n / 0x40 / 0x40;
    assert n / 0x4_0000 == n / 0x1000 / 0x40;
  }

  /** Octets stand for their code point, are as few as 7, 11 or 16 bits allow, and go on with 10xxxxxx. */
  lemma EncodeDenotes(codePoint: nat)
    requires codePoint <= 0x10FFFF
    ensures var octets := Encode(codePoint);
      && Decode(octets) == (if 0xD800 <= codePoint < 0xE000 then 0xFFFD else codePoint)
      && (|octets| == 1 <==> codePoint < 128) && (|octets| <= 2 <==> codePoint < 2_048)
      && (|octets| <= 3 <==> codePoint < 65_536)
      && forall i | 1 <= i < |octets| :: 0x80 <= octets[i] < 0xC0
  {
    if !(0xD800 <= codePoint < 0xE000) {
      Sextets(codePoint);
      hide Continued;
    }
  }

  /** A surrogate pair is that of its code point. */
  lemma PairOfCodePoint(t: Text, i: nat)
    requires PairAt(t, i)
    ensures var c := CodePointAt(t, i) - 0x1_0000;
      0 <= c < 0x10_0000 && t[i] == 0xD800 + c / 0x400 && t[i + 1] == 0xDC00 + c % 0x400
  {
  }

  function EncodeText(t: Text): seq<Octet> {
    if t == [] then [] else Encode(CodePointAt(t, 0)) + EncodeText(t[Width(t, 0)..])
  }

  /** `ByteLength` counts exactly the octets of the encoded text. */
  lemma {:induction false} ByteLengthCountsOctets(t: Text)
    ensures ByteLength(t) == |EncodeText(t)|
  {
    if t != [] {
      ByteLengthCountsOctets(t[Width(t, 0)..]);
    }
  }

  lemma {:induction false} AsciiBytes(t: Text)
    requires forall i | 0 <= i < |t| :: t[i] <= 0x7F
    ensures ByteLength(t) == |t|
  {
    if t != [] {
      assert Width(t, 0) == 1;
      AsciiBytes(t[1..]);
    }
  }

  // ---------- Lengths of prefixes ----------

  /** A seam that does not join a high surrogate to a low one adds lengths. */
  lemma {:induction false} ByteLengthConcat(a: Text, b: Text)
    requires Boundary(a + b, |a|)
    ensures ByteLength(a + b) == ByteLength(a) + ByteLength(b)
  {
    if a == [] {
      assert a + b == b;
    } else {
      var w := Width(a + b, 0);
      assert w == Width(a, 0) && CodePointAt(a + b, 0) == CodePointAt(a, 0) by {
        if |a| == 1 && b != [] {
          assert (a + b)[|a|] == b[0];
        }
      }
      assert (a + b)[w..] == a[w..] + b;
      assert Boundary(a[w..] + b, |a[w..]|) by {
        if 0 < |a[w..]| && b != [] {
          assert (a + b)[|a| - 1] == (a[w..] + b)[|a[w..]| - 1];
          assert (a + b)[|a|] == (a[w..] + b)[|a[w..]|];
        }
      }
      ByteLengthConcat(a[w..], b);
    }
  }

  /** One step of a code-point walk: the next index is a boundary and the lengths agree. */
  lemma ByteLengthStep(t: Text, i: nat)
    requires i < |t| && Boundary(t, i)
    ensures Boundary(t, i + Width(t, i))
    ensures ByteLength(t[..i + Width(t, i)]) == ByteLength(t[..i]) + CodePointBytes(CodePointAt(t, i))
    ensures forall k | i < k < i + Width(t, i) :: !Boundary(t, k)
  {
    var w := Width(t, i);
    var a, b := t[..i], t[i..i + w];
    assert t[..i + w] == a + b;
    ByteLengthConcat(a, b);
    assert CodePointAt(b, 0) == CodePointAt(t, i);
    assert Width(b, 0) == w;
    assert b[w..] == [];
  }

  /** A longer prefix takes more bytes. */
  lemma {:induction false} ByteLengthMonotone(t: Text, i: nat, j: nat)
    requires i <= j && Boundary(t, i) && Boundary(t, j)
    ensures ByteLength(t[..i]) <= ByteLength(t[..j])
    ensures i < j ==> ByteLength(t[..i]) < ByteLength(t[..j])
    decreases j - i
  {
    if i < j {
      ByteLengthStep(t, i);
      ByteLengthMonotone(t, i + Width(t, i), j);
    }
  }

  /** The longest prefix on a code-point boundary that takes at most `limit` bytes. */
  ghost predicate LongestPrefix(t: Text, limit: nat, end: nat) {
    && Boundary(t, end)
    && ByteLength(t[..end]) <= limit
    && forall k | end < k <= |t| && Boundary(t, k) :: ByteLength(t[..k]) > limit
  }

  lemma LongestPrefixUnique(t: Text, limit: nat, i: nat, j: nat)
    requires LongestPrefix(t, limit, i) && LongestPrefix(t, limit, j)
    ensures i == j
  {
  }

  /** Where a walk that stops at the first code point that no longer fits has got to. */
  function PrefixEnd(t: Text, limit: nat): (end: nat)
    ensures end <= |t|
  {
    if t == [] then 0
    else
      var bytes := CodePointBytes(CodePointAt(t, 0));
      var w := Width(t, 0);
      if bytes > limit then 0 else w + PrefixEnd(t[w..], limit - bytes)
  }

  /** That walk ends on the longest prefix. */
  lemma {:induction false} PrefixEndIsLongest(t: Text, limit: nat)
    ensures LongestPrefix(t, limit, PrefixEnd(t, limit))
  {
    if t != [] {
      var bytes := CodePointBytes(CodePointAt(t, 0));
      var w := Width(t, 0);
      ByteLengthStep(t, 0);
      assert t[..0] == [];
      if bytes > limit {
        forall k | 0 < k <= |t| && Boundary(t, k) ensures ByteLength(t[..k]) > limit {
          ByteLengthMonotone(t, w, k);
        }
      } else {
        var rest := t[w..];
        PrefixEndIsLongest(rest, limit - bytes);
        forall k | w <= k <= |t| && Boundary(t, k)
          ensures Boundary(rest, k - w)
          ensures ByteLength(t[..k]) == bytes + ByteLength(rest[..k - w])
        {
          PrefixOfRest(t, k);
        }
        var end := PrefixEnd(rest, limit - bytes);
        assert Boundary(t, w + end) by {
          assert 0 < end < |rest| ==> PairAt(rest, end - 1) == PairAt(t, w + end - 1);
        }
      }
    }
  }

  lemma PrefixEndFits(t: Text, limit: nat)
    ensures ByteLength(t[..PrefixEnd(t, limit)]) <= limit
  {
    PrefixEndIsLongest(t, limit);
  }

  /** The prefix up to `k` is the first code point and a prefix of the rest. */
  lemma PrefixOfRest(t: Text, k: nat)
    requires t != [] && Width(t, 0) <= k && Boundary(t, k)
    ensures Boundary(t[Width(t, 0)..], k - Width(t, 0))
    ensures ByteLength(t[..k])
         == CodePointBytes(CodePointAt(t, 0)) + ByteLength(t[Width(t, 0)..][..k - Width(t, 0)])
  {
    var w := Width(t, 0);
    var p := t[..k];
    assert CodePointAt(p, 0) == CodePointAt(t, 0) && Width(p, 0) == w;
    assert p[w..] == t[w..][..k - w];
    assert 0 < k - w < |t[w..]| ==> PairAt(t[w..], k - w - 1) == PairAt(t, k - 1);
  }
}
