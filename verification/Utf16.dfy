/** UTF-16 (section 2 of RFC 2781) and the key order of section 3.2.3 of RFC 8785. */
module Utf16 {
  import opened Utf8

  type Unit = u: int | 0 <= u < 0x10000
  type Units = seq<Unit>

  predicate IsHigh(u: int) { 0xD800 <= u < 0xDC00 }
  predicate IsLow(u: int) { 0xDC00 <= u < 0xE000 }
  predicate IsSurrogate(u: int) { 0xD800 <= u < 0xE000 }

  /** The scalar a surrogate pair stands for. */
  function Pair(high: Unit, low: Unit): (c: Scalar)
    requires IsHigh(high) && IsLow(low)
    ensures 0x10000 <= c
  {
    0x10000 + (high - 0xD800) * 0x400 + (low - 0xDC00)
  }

  function ScalarUnits(c: Scalar): (us: Units)
    ensures 1 <= |us| <= 2
  {
    if c < 0x10000 then [c] else [0xD800 + (c - 0x10000) / 0x400, 0xDC00 + (c - 0x10000) % 0x400]
  }

  function Encode(cs: Text): Units {
    if cs == [] then [] else ScalarUnits(cs[0]) + Encode(cs[1..])
  }

  /** Every surrogate is half of a pair. */
  predicate WellFormed(us: Units) {
    if us == [] then true
    else if !IsSurrogate(us[0]) then WellFormed(us[1..])
    else IsHigh(us[0]) && |us| >= 2 && IsLow(us[1]) && WellFormed(us[2..])
  }

  /** The scalars of a unit sequence, with U+FFFD for each unpaired surrogate. */
  function Decode(us: Units): Text {
    if us == [] then []
    else if !IsSurrogate(us[0]) then [us[0]] + Decode(us[1..])
    else if IsHigh(us[0]) && |us| >= 2 && IsLow(us[1]) then [Pair(us[0], us[1])] + Decode(us[2..])
    else [RUNE_ERROR] + Decode(us[1..])
  }

  lemma ScalarPrefix(c: Scalar, rest: Units)
    ensures Decode(ScalarUnits(c) + rest) == [c] + Decode(rest)
    ensures WellFormed(ScalarUnits(c) + rest) == WellFormed(rest)
  {
    var us := ScalarUnits(c) + rest;
    assert us[|ScalarUnits(c)|..] == rest;
    if 0x10000 <= c {
      assert us[0] == 0xD800 + (c - 0x10000) / 0x400 && us[1] == 0xDC00 + (c - 0x10000) % 0x400;
    }
  }

  lemma {:induction false} DecodeInvertsEncode(cs: Text)
    ensures Decode(Encode(cs)) == cs && WellFormed(Encode(cs))
  {
    if cs != [] {
      DecodeInvertsEncode(cs[1..]);
      ScalarPrefix(cs[0], Encode(cs[1..]));
    }
  }

  /** On well-formed units, and on no others, decoding loses nothing. */
  lemma {:induction false} WellFormedIsEncoded(us: Units)
    ensures WellFormed(us) <==> Encode(Decode(us)) == us
  {
    if WellFormed(us) {
      WellFormedEncodes(us);
    } else if Encode(Decode(us)) == us {
      DecodeInvertsEncode(Decode(us));
    }
  }

  lemma {:induction false} WellFormedEncodes(us: Units)
    requires WellFormed(us)
    ensures Encode(Decode(us)) == us
  {
    if us != [] {
      var n := if IsSurrogate(us[0]) then 2 else 1;
      WellFormedEncodes(us[n..]);
      assert Decode(us)[1..] == Decode(us[n..]);
      assert us == us[..n] + us[n..];
      if n == 2 {
        var d := Pair(us[0], us[1]) - 0x10000;
        assert d / 0x400 == us[0] - 0xD800 && d % 0x400 == us[1] - 0xDC00;
      }
    }
  }

  /** slices.Compare: lexicographic, a proper prefix coming first. */
  function Compare(a: Units, b: Units): (r: int)
    ensures -1 <= r <= 1
  {
    if a == [] then if b == [] then 0 else -1
    else if b == [] then 1
    else if a[0] != b[0] then if a[0] < b[0] then -1 else 1
    else Compare(a[1..], b[1..])
  }

  /** a and b agree up to i; there a ends first or has the smaller unit. */
  predicate FirstDifference(a: Units, b: Units, i: nat) {
    && i <= |a| && i < |b| && a[..i] == b[..i]
    && (i < |a| ==> a[i] < b[i])
  }

  lemma SharedHead(a: Units, b: Units, i: nat)
    requires FirstDifference(a, b, i)
    ensures i > 0 ==> a != [] && b != [] && a[0] == b[0]
  {
    if i > 0 {
      assert a[..i][0] == b[..i][0];
    }
  }

  /** The comparison is the lexicographic one of section 3.2.3 of RFC 8785. */
  lemma {:induction false} CompareIsLexicographic(a: Units, b: Units)
    ensures Compare(a, b) < 0 <==> exists i: nat :: FirstDifference(a, b, i)
    decreases |a|
  {
    if a == [] || b == [] || a[0] != b[0] {
      assert Compare(a, b) < 0 ==> FirstDifference(a, b, 0);
      forall i: nat | FirstDifference(a, b, i) ensures i == 0 {
        SharedHead(a, b, i);
      }
    } else {
      CompareIsLexicographic(a[1..], b[1..]);
      forall i: nat | FirstDifference(a[1..], b[1..], i) ensures FirstDifference(a, b, i + 1) {
        assert a[..i + 1] == [a[0]] + a[1..][..i] && b[..i + 1] == [b[0]] + b[1..][..i];
      }
      forall i: nat | FirstDifference(a, b, i) ensures i > 0 && FirstDifference(a[1..], b[1..], i - 1) {
        assert a[1..][..i - 1] == a[..i][1..] && b[1..][..i - 1] == b[..i][1..];
      }
    }
  }

  lemma {:induction false} CompareCommonPrefix(p: Units, a: Units, b: Units)
    ensures Compare(p + a, p + b) == Compare(a, b)
  {
    if p == [] {
      assert p + a == a && p + b == b;
    } else {
      assert (p + a)[1..] == p[1..] + a && (p + b)[1..] == p[1..] + b;
      CompareCommonPrefix(p[1..], a, b);
    }
  }

  /** No scalar's units are a prefix of another's, so two different scalars decide the comparison. */
  lemma CompareDecided(c: Scalar, d: Scalar, a: Units, b: Units)
    requires c != d
    ensures Compare(ScalarUnits(c) + a, ScalarUnits(d) + b) == Compare(ScalarUnits(c), ScalarUnits(d)) != 0
  {
    var x, y := ScalarUnits(c), ScalarUnits(d);
    assert (x + a)[0] == x[0] && (y + b)[0] == y[0];
    if x[0] == y[0] {
      assert |x| == 2 && |y| == 2 && x[1] != y[1];
      assert (x + a)[1..] == [x[1]] + a && (y + b)[1..] == [y[1]] + b;
      assert x[1..] == [x[1]] && y[1..] == [y[1]];
    }
  }

  lemma {:induction false} CompareAntisymmetric(a: Units, b: Units)
    ensures Compare(a, b) == -Compare(b, a)
    ensures Compare(a, b) == 0 <==> a == b
  {
    if a != [] && b != [] && a[0] == b[0] {
      CompareAntisymmetric(a[1..], b[1..]);
      assert a == [a[0]] + a[1..] && b == [b[0]] + b[1..];
    }
  }

  lemma {:induction false} CompareTransitive(a: Units, b: Units, c: Units)
    requires Compare(a, b) < 0 && Compare(b, c) < 0
    ensures Compare(a, c) < 0
  {
    if a != [] && a[0] == b[0] && b[0] == c[0] {
      CompareTransitive(a[1..], b[1..], c[1..]);
    }
  }

  /** The member order of the canonical form. */
  predicate Less(a: Text, b: Text) {
    Compare(Encode(a), Encode(b)) < 0
  }

  /** The order is strict and total on texts. */
  lemma LessIsStrictTotal(a: Text, b: Text, c: Text)
    ensures !Less(a, a)
    ensures a != b ==> (Less(a, b) <==> !Less(b, a))
    ensures Less(a, b) && Less(b, c) ==> Less(a, c)
  {
    var x, y, z := Encode(a), Encode(b), Encode(c);
    CompareAntisymmetric(x, x);
    CompareAntisymmetric(x, y);
    DecodeInvertsEncode(a);
    DecodeInvertsEncode(b);
    if Less(a, b) && Less(b, c) {
      CompareTransitive(x, y, z);
    }
  }

  /** Where a scalar comes in the key order: the characters above the BMP come before
      U+E000 to U+FFFF and after all others. */
  function Rank(c: Scalar): int {
    if 0xE000 <= c < 0x10000 then c + 0x110000 else c
  }

  lemma UnitsByRank(c: Scalar, d: Scalar)
    ensures Compare(ScalarUnits(c), ScalarUnits(d)) < 0 <==> Rank(c) < Rank(d)
  {
    var x, y := ScalarUnits(c), ScalarUnits(d);
    if |x| == 2 && |y| == 2 {
      TwoUnits(x[0], x[1], y[0], y[1]);
      assert x == [x[0], x[1]] && y == [y[0], y[1]];
      assert (c - 0x10000) / 0x400 * 0x400 + (c - 0x10000) % 0x400 == c - 0x10000;
      assert (d - 0x10000) / 0x400 * 0x400 + (d - 0x10000) % 0x400 == d - 0x10000;
    } else if |x| == 1 && |y| == 1 {
      assert x[1..] == [] && y[1..] == [];
    }
  }

  lemma TwoUnits(a: Unit, b: Unit, c: Unit, d: Unit)
    ensures Compare([a, b], [c, d]) < 0 <==> a < c || (a == c && b < d)
  {
    assert [a, b][1..] == [b] && [c, d][1..] == [d];
    OneUnit(b, d);
  }

  lemma OneUnit(b: Unit, d: Unit)
    ensures Compare([b], [d]) < 0 <==> b < d
  {
    assert [b][1..] == [] && [d][1..] == [];
  }

  /** The texts agree up to i; there a ends first or has the character that ranks lower. */
  predicate RanksFirst(a: Text, b: Text, i: nat) {
    && i <= |a| && i < |b| && a[..i] == b[..i]
    && (i < |a| ==> Rank(a[i]) < Rank(b[i]))
  }

  /** The member order, told by characters: what parts it from code point order is only
      where the characters above the BMP rank. */
  lemma {:induction false} LessByRank(a: Text, b: Text)
    ensures Less(a, b) <==> exists i: nat :: RanksFirst(a, b, i)
    decreases |a|
  {
    if a == [] || b == [] {
      assert Less(a, b) ==> RanksFirst(a, b, 0);
    } else if a[0] != b[0] {
      FirstDecides(a, b);
    } else {
      CompareCommonPrefix(ScalarUnits(a[0]), Encode(a[1..]), Encode(b[1..]));
      LessByRank(a[1..], b[1..]);
      forall i: nat | RanksFirst(a[1..], b[1..], i) ensures RanksFirst(a, b, i + 1) {
        assert a[..i + 1] == [a[0]] + a[1..][..i] && b[..i + 1] == [b[0]] + b[1..][..i];
      }
      forall i: nat | RanksFirst(a, b, i) ensures i > 0 && RanksFirst(a[1..], b[1..], i - 1) {
        assert a[1..][..i - 1] == a[..i][1..] && b[1..][..i - 1] == b[..i][1..];
      }
    }
  }

  lemma SharedFirst(a: Text, b: Text, i: nat)
    requires RanksFirst(a, b, i)
    ensures i > 0 ==> a != [] && b != [] && a[0] == b[0]
  {
    if i > 0 {
      assert a[..i][0] == b[..i][0];
    }
  }

  lemma FirstDecides(a: Text, b: Text)
    requires a != [] && b != [] && a[0] != b[0]
    ensures Less(a, b) <==> Rank(a[0]) < Rank(b[0])
    ensures Less(a, b) <==> exists i: nat :: RanksFirst(a, b, i)
  {
    CompareDecided(a[0], b[0], Encode(a[1..]), Encode(b[1..]));
    UnitsByRank(a[0], b[0]);
    assert Less(a, b) ==> RanksFirst(a, b, 0);
    forall i: nat | RanksFirst(a, b, i) ensures i == 0 {
      SharedFirst(a, b, i);
    }
  }

  /** The pairs of section 2.1 of RFC 2781: their order is that of the characters, they are
      all taken, and the first and last are these. */
  lemma PairsInOrder(high: Unit, low: Unit)
    requires IsHigh(high) && IsLow(low)
    ensures ScalarUnits(Pair(high, low)) == [high, low]
    ensures Pair(0xD800, 0xDC00) == 0x10000 && Pair(0xDBFF, 0xDFFF) == 0x10FFFF
    ensures IsLow(low + 1) ==> Pair(high, low + 1) == Pair(high, low) + 1
    ensures IsHigh(high + 1) ==> Pair(high + 1, 0xDC00) == Pair(high, 0xDFFF) + 1
  {
  }
}
