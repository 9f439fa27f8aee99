/** UTF-8 (section 3 of RFC 3629) as Go's unicode/utf8 package reads it: every byte
    that does not start a well-formed encoding decodes to U+FFFD with width one. */
module Utf8 {

  type Byte = b: int | 0 <= b < 0x100
  type ByteString = seq<Byte>

  /** A Unicode scalar value: a code point that is not a surrogate. */
  type Scalar = c: int | 0 <= c < 0xD800 || 0xE000 <= c < 0x110000
  type Text = seq<Scalar>

  lemma Assoc(a: ByteString, b: ByteString, c: ByteString)
    ensures a + (b + c) == (a + b) + c
  {
  }

  lemma Drop(a: ByteString, b: ByteString)
    ensures (a + b)[|a|..] == b
  {
  }

  lemma NilLeft(s: ByteString)
    ensures [] + s == s
  {
  }

  const RUNE_ERROR: Scalar := 0xFFFD

  /** The shortest encoding of one scalar. */
  function EncodeScalar(c: Scalar): (r: ByteString)
    ensures 1 <= |r| <= 4
  {
    if c < 0x80 then [c]
    else if c < 0x800 then [0xC0 + c / 0x40, 0x80 + c % 0x40]
    else if c < 0x10000 then [0xE0 + c / 0x1000, 0x80 + c / 0x40 % 0x40, 0x80 + c % 0x40]
    else [0xF0 + c / 0x40000, 0x80 + c / 0x1000 % 0x40, 0x80 + c / 0x40 % 0x40, 0x80 + c % 0x40]
  }

  function At(s: ByteString, i: nat): int
    requires i < |s|
  {
    s[i]
  }

  predicate IsTail(b: int) { 0x80 <= b <= 0xBF }

  /** The table of section 3 of RFC 3629: which octets spell a character number. */
  predicate InTable(s: ByteString, c: Scalar) {
    || (|s| == 1 && c <= 0x7F && c == At(s, 0))
    || (|s| == 2 && 0x80 <= c <= 0x7FF && 0xC0 <= At(s, 0) <= 0xDF && IsTail(At(s, 1))
        && c == 0x40 * (At(s, 0) - 0xC0) + (At(s, 1) - 0x80))
    || (|s| == 3 && 0x800 <= c <= 0xFFFF && 0xE0 <= At(s, 0) <= 0xEF && IsTail(At(s, 1)) && IsTail(At(s, 2))
        && c == 0x1000 * (At(s, 0) - 0xE0) + 0x40 * (At(s, 1) - 0x80) + (At(s, 2) - 0x80))
    || (|s| == 4 && 0x10000 <= c <= 0x10FFFF && 0xF0 <= At(s, 0) <= 0xF7 && IsTail(At(s, 1)) && IsTail(At(s, 2)) && IsTail(At(s, 3))
        && c == 0x40000 * (At(s, 0) - 0xF0) + 0x1000 * (At(s, 1) - 0x80) + 0x40 * (At(s, 2) - 0x80) + (At(s, 3) - 0x80))
  }

  /** An encoding is what the table says, and nothing else. */
  lemma EncodesByTheTable(s: ByteString, c: Scalar)
    ensures s == EncodeScalar(c) <==> InTable(s, c)
  {
    TableSpells(c);
    if InTable(s, c) {
      TableUnique(s, c);
    }
  }

  lemma TableSpells(c: Scalar)
    ensures InTable(EncodeScalar(c), c)
  {
    if c < 0x10000 {
      assert c / 0x40 == c / 0x1000 * 0x40 + c / 0x40 % 0x40;
    } else {
      assert c / 0x40 == c / 0x1000 * 0x40 + c / 0x40 % 0x40;
      assert c / 0x1000 == c / 0x40000 * 0x40 + c / 0x1000 % 0x40;
    }
  }

  lemma TableUnique(s: ByteString, c: Scalar)
    requires InTable(s, c)
    ensures s == EncodeScalar(c)
  {
    if |s| == 4 {
      Digits(s[0] as int - 0xF0, s[1] as int - 0x80, s[2] as int - 0x80, s[3] as int - 0x80);
    } else if |s| == 3 {
      Digits(0, s[0] as int - 0xE0, s[1] as int - 0x80, s[2] as int - 0x80);
    } else if |s| == 2 {
      Digits(0, 0, s[0] as int - 0xC0, s[1] as int - 0x80);
    }
  }

  function Encode(cs: Text): ByteString {
    if cs == [] then [] else EncodeScalar(cs[0]) + Encode(cs[1..])
  }

  predicate Continuation(s: ByteString, i: nat) {
    i < |s| && 0x80 <= s[i] < 0xC0
  }

  /** The range the second byte must lie in after a given multi-byte lead: it shuts out
      overlong forms, surrogates and everything above U+10FFFF. */
  function SecondRange(lead: Byte): (int, int) {
    if lead == 0xE0 then (0xA0, 0xC0)
    else if lead == 0xED then (0x80, 0xA0)
    else if lead == 0xF0 then (0x90, 0xC0)
    else if lead == 0xF4 then (0x80, 0x90)
    else (0x80, 0xC0)
  }

  /** utf8.DecodeRune: the scalar at the head of s and its width. */
  function DecodeRune(s: ByteString): (r: (Scalar, nat))
    requires s != []
    ensures 1 <= r.1 <= |s|
    ensures s[0] < 0x80 ==> r == (s[0], 1)
    ensures 0x80 <= s[0] ==> 0x80 <= r.0
  {
    var x: int := s[0];
    if x < 0x80 then (x, 1)
    else if x < 0xC2 || 0xF5 <= x || |s| < 2 then (RUNE_ERROR, 1)
    else
      var (lo, hi) := SecondRange(x);
      var y: int := s[1];
      if !(lo <= y < hi) then (RUNE_ERROR, 1)
      else if x < 0xE0 then ((x - 0xC0) * 0x40 + (y - 0x80), 2)
      else if !Continuation(s, 2) then (RUNE_ERROR, 1)
      else if x < 0xF0 then ((x - 0xE0) * 0x1000 + (y - 0x80) * 0x40 + (s[2] - 0x80), 3)
      else if !Continuation(s, 3) then (RUNE_ERROR, 1)
      else ((x - 0xF0) * 0x40000 + (y - 0x80) * 0x1000 + (s[2] as int - 0x80) * 0x40 + (s[3] - 0x80), 4)
  }

  /** Whether s starts with a well-formed encoding. A decoded U+FFFD of width one is
      the marker of a bad byte; the encoded character U+FFFD has width three. */
  predicate GoodHead(s: ByteString)
    requires s != []
  {
    s[0] < 0x80 || DecodeRune(s).1 > 1
  }

  /** A byte that starts no encoding of the table reads as U+FFFD and is passed alone; any
      other head reads as what the table says. */
  lemma DecodesByTheTable(s: ByteString)
    requires s != []
    ensures var (c, n) := DecodeRune(s); InTable(s[..n], c) || (c == 0xFFFD && n == 1 && !exists k, d: Scalar ::
      (0 < k <= |s| && InTable(s[..k], d)))
  {
    if GoodHead(s) {
      EncodeInvertsDecodeRune(s);
      EncodesByTheTable(s[..DecodeRune(s).1], DecodeRune(s).0);
    } else {
      forall k, d: Scalar | 0 < k <= |s| ensures !InTable(s[..k], d) {
        TableIsGood(s, k, d);
      }
    }
  }

  lemma TableIsGood(s: ByteString, k: nat, d: Scalar)
    requires 0 < k <= |s|
    ensures InTable(s[..k], d) ==> GoodHead(s)
  {
    if InTable(s[..k], d) {
      EncodesByTheTable(s[..k], d);
      DecodeRuneInvertsEncode(d, s[k..]);
      assert s == EncodeScalar(d) + s[k..];
    }
  }

  /** utf8.Valid. */
  predicate Valid(s: ByteString) {
    s == [] || (GoodHead(s) && Valid(s[DecodeRune(s).1..]))
  }

  /** The scalars Go reads from any byte string: bad bytes become U+FFFD. */
  function Decode(s: ByteString): Text {
    if s == [] then [] else [DecodeRune(s).0] + Decode(s[DecodeRune(s).1..])
  }

  lemma DecodeRuneInvertsEncode(c: Scalar, rest: ByteString)
    ensures DecodeRune(EncodeScalar(c) + rest) == (c, |EncodeScalar(c)|)
    ensures GoodHead(EncodeScalar(c) + rest)
  {
    var s := EncodeScalar(c) + rest;
    if c < 0x80 {
    } else if c < 0x800 {
      assert s[0] == 0xC0 + c / 0x40 && s[1] == 0x80 + c % 0x40;
    } else if c < 0x10000 {
      assert s[0] == 0xE0 + c / 0x1000 && s[1] == 0x80 + c / 0x40 % 0x40 && s[2] == 0x80 + c % 0x40;
      assert c / 0x1000 == c / 0x40 / 0x40;
    } else {
      assert s[0] == 0xF0 + c / 0x40000 && s[1] == 0x80 + c / 0x1000 % 0x40
          && s[2] == 0x80 + c / 0x40 % 0x40 && s[3] == 0x80 + c % 0x40;
      assert c / 0x1000 == c / 0x40 / 0x40 && c / 0x40000 == c / 0x1000 / 0x40;
    }
  }

  /** The base-64 digits of a code point. */
  lemma Digits(p: int, q: int, r: int, t: int)
    requires 0 <= p < 0x40 && 0 <= q < 0x40 && 0 <= r < 0x40 && 0 <= t < 0x40
    ensures var c := p * 0x40000 + q * 0x1000 + r * 0x40 + t;
      c / 0x40000 == p && c / 0x1000 % 0x40 == q && c / 0x40 % 0x40 == r && c % 0x40 == t
      && c / 0x1000 == p * 0x40 + q && c / 0x40 == p * 0x1000 + q * 0x40 + r
  {
    var u := p * 0x40 + q;
    var v := u * 0x40 + r;
    var c := v * 0x40 + t;
    LowDigit(p, q);
    LowDigit(u, r);
    LowDigit(v, t);
    assert c / 0x1000 == c / 0x40 / 0x40 && c / 0x40000 == c / 0x40 / 0x40 / 0x40;
  }

  lemma LowDigit(high: int, low: int)
    requires 0 <= high && 0 <= low < 0x40
    ensures (high * 0x40 + low) / 0x40 == high && (high * 0x40 + low) % 0x40 == low
  {
  }

  /** What a good head decodes to encodes back to the bytes it came from. */
  lemma EncodeInvertsDecodeRune(s: ByteString)
    requires s != [] && GoodHead(s)
    ensures EncodeScalar(DecodeRune(s).0) == s[..DecodeRune(s).1]
  {
    var (c, n) := DecodeRune(s);
    if n == 2 {
      Digits(0, 0, s[0] as int - 0xC0, s[1] as int - 0x80);
    } else if n == 3 {
      Digits(0, s[0] as int - 0xE0, s[1] as int - 0x80, s[2] as int - 0x80);
    } else if n == 4 {
      Digits(s[0] as int - 0xF0, s[1] as int - 0x80, s[2] as int - 0x80, s[3] as int - 0x80);
    }
  }

  lemma EncodeCons(c: Scalar, cs: Text)
    ensures Encode([c] + cs) == EncodeScalar(c) + Encode(cs)
  {
    assert ([c] + cs)[1..] == cs;
  }

  lemma {:induction false} EncodeConcat(a: Text, b: Text)
    ensures Encode(a + b) == Encode(a) + Encode(b)
  {
    if a == [] {
      assert a + b == b;
    } else {
      assert (a + b)[1..] == a[1..] + b;
      EncodeConcat(a[1..], b);
    }
  }

  /** One well-formed character in front leaves validity, and the decoding of the rest, alone. */
  lemma ScalarPrefix(c: Scalar, rest: ByteString)
    ensures Valid(EncodeScalar(c) + rest) == Valid(rest)
    ensures Decode(EncodeScalar(c) + rest) == [c] + Decode(rest)
  {
    var s := EncodeScalar(c) + rest;
    DecodeRuneInvertsEncode(c, rest);
    assert s[|EncodeScalar(c)|..] == rest;
  }

  /** Decoding inverts encoding, so encoding is injective. */
  lemma {:induction false} DecodeInvertsEncode(cs: Text)
    ensures Valid(Encode(cs)) && Decode(Encode(cs)) == cs
  {
    if cs != [] {
      DecodeInvertsEncode(cs[1..]);
      ScalarPrefix(cs[0], Encode(cs[1..]));
    }
  }

  /** Valid byte strings are exactly the encodings. */
  lemma {:induction false} ValidIsEncoded(s: ByteString)
    ensures Valid(s) <==> Encode(Decode(s)) == s
  {
    if Valid(s) {
      ValidEncodes(s);
    } else if Encode(Decode(s)) == s {
      DecodeInvertsEncode(Decode(s));
    }
  }

  lemma {:induction false} ValidEncodes(s: ByteString)
    requires Valid(s)
    ensures Encode(Decode(s)) == s
  {
    if s != [] {
      var (c, n) := DecodeRune(s);
      ValidEncodes(s[n..]);
      EncodeInvertsDecodeRune(s);
      EncodeParts(Decode(s), c, Decode(s[n..]), s[..n], s[n..]);
      SplitAt(s, n);
    }
  }

  lemma EncodeParts(cs: Text, c: Scalar, tail: Text, a: ByteString, b: ByteString)
    requires cs == [c] + tail && EncodeScalar(c) == a && Encode(tail) == b
    ensures Encode(cs) == a + b
  {
    EncodeCons(c, tail);
  }

  lemma SplitAt(s: ByteString, n: nat)
    requires n <= |s|
    ensures s[..n] + s[n..] == s
  {
  }

  /** Concatenation of a valid string with anything. */
  lemma {:induction false} EncodedPrefix(cs: Text, rest: ByteString)
    ensures Valid(Encode(cs) + rest) == Valid(rest)
    ensures Decode(Encode(cs) + rest) == cs + Decode(rest)
  {
    if cs == [] {
      NilLeft(rest);
      assert cs + Decode(rest) == Decode(rest);
    } else {
      EncodedPrefix(cs[1..], rest);
      EncodedHead(cs[0], cs[1..], rest);
      HeadTail(cs, Decode(rest));
    }
  }

  lemma HeadTail(cs: Text, rest: Text)
    requires cs != []
    ensures [cs[0]] + cs[1..] == cs
    ensures [cs[0]] + (cs[1..] + rest) == cs + rest
  {
  }

  lemma EncodedHead(c: Scalar, cs: Text, rest: ByteString)
    ensures var s := Encode([c] + cs) + rest;
      Valid(s) == Valid(Encode(cs) + rest) && Decode(s) == [c] + Decode(Encode(cs) + rest)
  {
    EncodeCons(c, cs);
    Assoc(EncodeScalar(c), Encode(cs), rest);
    ScalarPrefix(c, Encode(cs) + rest);
  }

  /** Self-synchronization: the encoding of a character occurs in an encoded text, at any
      byte offset whatever, only where that character stands. */
  lemma {:induction false} Synchronized(cs: Text, c: Scalar, i: nat)
    requires i <= |Encode(cs)| && EncodeScalar(c) <= Encode(cs)[i..]
    ensures c in cs
  {
    var e, s := EncodeScalar(c), Encode(cs);
    if cs != [] {
      var h, t := EncodeScalar(cs[0]), Encode(cs[1..]);
      assert s[i] == s[i..][0] == e[0];
      if |h| <= i {
        assert s[i..] == t[i - |h|..];
        Synchronized(cs[1..], c, i - |h|);
      } else if i == 0 {
        var rest := s[|e|..];
        assert s == e + rest && s == h + t;
        DecodeRuneInvertsEncode(c, rest);
        DecodeRuneInvertsEncode(cs[0], t);
      }
    }
  }
}
