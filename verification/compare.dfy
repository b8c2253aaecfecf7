/**
 The two comparisons the catalog's sort passes rely on: Java's
 `String.compareTo` (used for product names and arrival dates) and
 `Double.compare` (used for unit prices), with the order-theoretic facts a
 sort needs from them.
 */
module JavaCompare {
  import opened CatalogEntry

  // ---------------------------------------------------------------------------
  // String.compareTo
  // ---------------------------------------------------------------------------

  /** `a.compareTo(b)`: the difference of the first pair of characters at which
      the strings differ, or the difference of their lengths when one is a
      prefix of the other. */
  function CompareStrings(a: string, b: string): (c: int)
    ensures c == 0 <==> a == b
    decreases |a|
  {
    if |a| == 0 || |b| == 0 then |a| - |b|
    else if a[0] != b[0] then a[0] as int - b[0] as int
    else
      var rest := CompareStrings(a[1..], b[1..]);
      assert a == [a[0]] + a[1..] && b == [b[0]] + b[1..];
      rest
  }

  /** Lexicographic order, stated without reference to `CompareStrings`:
      `a` is a prefix of `b`, or the strings agree up to some position where
      `a` has the smaller character. */
  ghost predicate LexPrecedes(a: string, b: string) {
    || a <= b
    || exists k :: 0 <= k < |a| && k < |b| && a[..k] == b[..k] && a[k] < b[k]
  }

  /** `compareTo(a, b) <= 0` is exactly lexicographic order. */
  lemma {:induction false} CompareStringsIsLexicographic(a: string, b: string)
    ensures CompareStrings(a, b) <= 0 <==> LexPrecedes(a, b)
    decreases |a|
  {
    if |a| == 0 {
      assert a <= b;
    } else if |b| == 0 {
      assert !(a <= b);
    } else if a[0] != b[0] {
      LexPrecedesFirstDifference(a, b);
    } else {
      CompareStringsIsLexicographic(a[1..], b[1..]);
      LexPrecedesCommonHead(a, b);
    }
  }

  /** Strings that differ in their first character are ordered by it. */
  lemma LexPrecedesFirstDifference(a: string, b: string)
    requires |a| > 0 && |b| > 0 && a[0] != b[0]
    ensures LexPrecedes(a, b) <==> a[0] < b[0]
  {
    assert !(a <= b);
    if a[0] < b[0] {
      assert a[..0] == b[..0];
    }
  }

  /** A common first character does not affect the order. */
  lemma LexPrecedesCommonHead(a: string, b: string)
    requires |a| > 0 && |b| > 0 && a[0] == b[0]
    ensures LexPrecedes(a, b) <==> LexPrecedes(a[1..], b[1..])
  {
    assert a == [a[0]] + a[1..] && b == [b[0]] + b[1..];
    assert a <= b <==> a[1..] <= b[1..];
    if LexPrecedes(a[1..], b[1..]) && !(a[1..] <= b[1..]) {
      LexPrecedesPrepend(a, b);
    }
    if LexPrecedes(a, b) && !(a <= b) {
      LexPrecedesDropHead(a, b);
    }
  }

  lemma LexPrecedesPrepend(a: string, b: string)
    requires |a| > 0 && |b| > 0 && a[0] == b[0]
    requires exists k :: 0 <= k < |a| - 1 && k < |b| - 1 && a[1..][..k] == b[1..][..k] && a[1..][k] < b[1..][k]
    ensures exists k :: 0 <= k < |a| && k < |b| && a[..k] == b[..k] && a[k] < b[k]
  {
    var a', b' := a[1..], b[1..];
    var k :| 0 <= k < |a'| && k < |b'| && a'[..k] == b'[..k] && a'[k] < b'[k];
    assert a[..k + 1] == [a[0]] + a'[..k];
    assert b[..k + 1] == [b[0]] + b'[..k];
    assert a[k + 1] == a'[k] && b[k + 1] == b'[k];
  }

  lemma LexPrecedesDropHead(a: string, b: string)
    requires |a| > 0 && |b| > 0 && a[0] == b[0]
    requires exists k :: 0 <= k < |a| && k < |b| && a[..k] == b[..k] && a[k] < b[k]
    ensures exists k :: 0 <= k < |a| - 1 && k < |b| - 1 && a[1..][..k] == b[1..][..k] && a[1..][k] < b[1..][k]
  {
    var k :| 0 <= k < |a| && k < |b| && a[..k] == b[..k] && a[k] < b[k];
    assert k > 0;
    assert a[1..][..k - 1] == a[..k][1..] && b[1..][..k - 1] == b[..k][1..];
    assert a[1..][k - 1] == a[k] && b[1..][k - 1] == b[k];
  }

  /** The result is decided at the first position where the strings differ,
      as the character-by-character loop of `compareTo` does. */
  lemma {:induction false} CompareStringsAtFirstDifference(a: string, b: string, k: nat)
    requires k < |a| && k < |b| && a[..k] == b[..k] && a[k] != b[k]
    ensures CompareStrings(a, b) == a[k] as int - b[k] as int
  {
    if k > 0 {
      assert a[0] == a[..k][0] == b[..k][0] == b[0];
      assert a[1..][..k - 1] == a[..k][1..] && b[1..][..k - 1] == b[..k][1..];
      CompareStringsAtFirstDifference(a[1..], b[1..], k - 1);
    }
  }

  /** When `a` is a prefix of `b` (or the other way round, by antisymmetry),
      the result is the difference of the lengths. */
  lemma {:induction false} CompareStringsOfPrefix(a: string, b: string)
    requires a <= b
    ensures CompareStrings(a, b) == |a| - |b|
    decreases |a|
  {
    if |a| > 0 {
      assert a[1..] <= b[1..];
      CompareStringsOfPrefix(a[1..], b[1..]);
    }
  }

  /** Swapping the operands negates the result. */
  lemma {:induction false} CompareStringsAntisymmetric(a: string, b: string)
    ensures CompareStrings(a, b) == -CompareStrings(b, a)
    decreases |a|
  {
    if |a| > 0 && |b| > 0 && a[0] == b[0] {
      CompareStringsAntisymmetric(a[1..], b[1..]);
    }
  }

  /** "Not after" is transitive. */
  lemma {:induction false} CompareStringsTransitive(a: string, b: string, c: string)
    requires CompareStrings(a, b) <= 0 && CompareStrings(b, c) <= 0
    ensures CompareStrings(a, c) <= 0
    decreases |a|
  {
    if |a| > 0 && |b| > 0 && |c| > 0 && a[0] == b[0] && b[0] == c[0] {
      CompareStringsTransitive(a[1..], b[1..], c[1..]);
    }
  }

  // ---------------------------------------------------------------------------
  // Double.compare
  // ---------------------------------------------------------------------------

  const SIGN_BIT: int := 0x8000_0000_0000_0000
  const POSITIVE_INFINITY_BITS: int := 0x7FF0_0000_0000_0000
  /** The bit pattern `Double.doubleToLongBits` maps every NaN to. */
  const CANONICAL_NAN_BITS: int := 0x7FF8_0000_0000_0000
  const POSITIVE_ZERO_BITS: DoubleBits := 0
  const NEGATIVE_ZERO_BITS: DoubleBits := 0x8000_0000_0000_0000

  /** Exponent all ones and a non-zero fraction, whatever the sign. */
  predicate IsNaN(d: DoubleBits) {
    d % SIGN_BIT > POSITIVE_INFINITY_BITS
  }

  /** The position of `d` in the total order `Double.compare` imposes:
      negative values (most negative first), -0.0, +0.0, positive values,
      and finally every NaN, all at one position. */
  function TotalOrderKey(d: DoubleBits): int {
    var magnitude := d % SIGN_BIT;
    if magnitude > POSITIVE_INFINITY_BITS then CANONICAL_NAN_BITS
    else if d >= SIGN_BIT then -magnitude - 1
    else magnitude
  }

  /** `Double.compare(x, y)`: -1, 0 or 1. */
  function CompareDoubles(x: DoubleBits, y: DoubleBits): (c: int)
    ensures c == 0 <==> x == y || (IsNaN(x) && IsNaN(y))
    ensures IsNaN(x) && !IsNaN(y) ==> c == 1
    ensures !IsNaN(x) && !IsNaN(y) && x < SIGN_BIT && y < SIGN_BIT ==> (c < 0 <==> x < y)
    ensures !IsNaN(x) && !IsNaN(y) && x >= SIGN_BIT && y >= SIGN_BIT ==> (c < 0 <==> x > y)
    ensures !IsNaN(x) && !IsNaN(y) && x >= SIGN_BIT && y < SIGN_BIT ==> c == -1
    ensures x == NEGATIVE_ZERO_BITS && y == POSITIVE_ZERO_BITS ==> c == -1
  {
    var kx, ky := TotalOrderKey(x), TotalOrderKey(y);
    if kx < ky then -1 else if kx > ky then 1 else 0
  }

  lemma CompareDoublesAntisymmetric(x: DoubleBits, y: DoubleBits)
    ensures CompareDoubles(x, y) == -CompareDoubles(y, x)
  {
  }

  lemma CompareDoublesTransitive(x: DoubleBits, y: DoubleBits, z: DoubleBits)
    requires CompareDoubles(x, y) <= 0 && CompareDoubles(y, z) <= 0
    ensures CompareDoubles(x, z) <= 0
  {
  }
}
