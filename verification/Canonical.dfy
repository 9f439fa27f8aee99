/** The canonical serialization: internal/contract/canonical.go. */
module Canonical {
  import opened Utf8
  import opened Values
  import Grammar
  import Utf16

  // ---- The serialization on scalars -------------------------------------------------

  function HexDigit(n: int): Byte
    requires 0 <= n < 0x10
  {
    if n < 10 then 0x30 + n else 0x57 + n
  }

  /** A BMP code point as a lowercase four-digit escape. */
  function UnicodeEscape(c: int): ByteString
    requires 0 <= c < 0x10000
  {
    [BACKSLASH, LOWER_U,
     HexDigit(c / 0x1000), HexDigit(c / 0x100 % 0x10), HexDigit(c / 0x10 % 0x10), HexDigit(c % 0x10)]
  }

  /** The control characters with a two-character escape, and the letter of each. */
  function ShortLetter(c: int): (r: int) {
    if c == 0x08 then 0x62
    else if c == 0x0C then 0x66
    else if c == 0x0A then 0x6E
    else if c == 0x0D then 0x72
    else if c == 0x09 then 0x74
    else 0
  }

  /** The separators beyond RFC 8785's table that the contract escapes. */
  predicate IsSeparator(c: int) {
    c == 0x85 || c == 0x2028 || c == 0x2029
  }

  /** The escape table. */
  function Escape(c: Scalar): ByteString {
    if c == QUOTE || c == BACKSLASH then [BACKSLASH, c]
    else if ShortLetter(c) != 0 then [BACKSLASH, ShortLetter(c)]
    else if c < 0x20 || IsSeparator(c) then UnicodeEscape(c)
    else EncodeScalar(c)
  }

  function EscapeText(cs: Text): ByteString {
    if cs == [] then [] else Escape(cs[0]) + EscapeText(cs[1..])
  }

  function Quoted(cs: Text): ByteString {
    [QUOTE] + (EscapeText(cs) + [QUOTE])
  }

  ghost predicate Sorted(ks: seq<Text>) {
    forall i, j | 0 <= i < j < |ks| :: Utf16.Less(ks[i], ks[j])
  }

  /** The keys of a set in UTF-16 order; SortedUnique shows there is one such list. */
  ghost function SortedKeys(ks: set<Text>): (r: seq<Text>)
    ensures Sorted(r) && forall k :: k in r <==> k in ks
  {
    if ks == {} then []
    else
      var k :| k in ks;
      Insert(k, SortedKeys(ks - {k}))
  }

  function Insert(k: Text, ks: seq<Text>): (r: seq<Text>)
    requires Sorted(ks) && k !in ks
    ensures Sorted(r) && forall j :: j in r <==> j == k || j in ks
  {
    if ks == [] then [k]
    else if Utf16.Less(k, ks[0]) then
      BelowAll(k, ks);
      SortedCons(k, ks);
      [k] + ks
    else
      AboveFirst(k, ks);
      var t := Insert(k, ks[1..]);
      SortedCons(ks[0], t);
      [ks[0]] + t
  }

  lemma BelowAll(k: Text, ks: seq<Text>)
    requires Sorted(ks) && ks != [] && Utf16.Less(k, ks[0])
    ensures forall j | j in ks :: Utf16.Less(k, j)
  {
    forall i | 0 <= i < |ks| ensures Utf16.Less(k, ks[i]) {
      Utf16.LessIsStrictTotal(k, ks[0], ks[i]);
    }
  }

  lemma AboveFirst(k: Text, ks: seq<Text>)
    requires Sorted(ks) && ks != [] && k !in ks && !Utf16.Less(k, ks[0])
    ensures Sorted(ks[1..]) && k !in ks[1..]
    ensures forall j | j == k || j in ks[1..] :: Utf16.Less(ks[0], j)
    ensures forall j :: j in ks <==> j == ks[0] || j in ks[1..]
  {
    Utf16.LessIsStrictTotal(k, ks[0], k);
    assert ks == [ks[0]] + ks[1..];
  }

  lemma SortedCons(k: Text, ks: seq<Text>)
    requires Sorted(ks) && forall j | j in ks :: Utf16.Less(k, j)
    ensures Sorted([k] + ks) && forall j :: j in [k] + ks <==> j == k || j in ks
  {
    var r := [k] + ks;
    forall i, j | 0 <= i < j < |r| ensures Utf16.Less(r[i], r[j]) {
      assert r[j] == ks[j - 1] && ks[j - 1] in ks;
    }
  }

  /** A strictly sorted list is determined by its members, so the order in which a map
      yields its keys cannot reach the output. */
  lemma {:induction false} SortedUnique(a: seq<Text>, b: seq<Text>)
    requires Sorted(a) && Sorted(b) && forall k :: k in a <==> k in b
    ensures a == b
  {
    assert (a == [] || a[0] in a) && (b == [] || b[0] in b);
    if a != [] {
      assert a[0] in b && b[0] in a;
      Utf16.LessIsStrictTotal(a[0], b[0], a[0]);
      assert a == [a[0]] + a[1..] && b == [b[0]] + b[1..];
      forall k ensures k in a[1..] <==> k in b[1..] {
        Utf16.LessIsStrictTotal(a[0], a[0], a[0]);
        assert k in a <==> k == a[0] || k in a[1..];
        assert k in b <==> k == b[0] || k in b[1..];
        assert a[0] !in a[1..] && b[0] !in b[1..];
      }
      SortedUnique(a[1..], b[1..]);
    }
  }

  /** The canonical bytes of a value. */
  ghost function Canon(v: Value): ByteString
    decreases v, 1, 0
  {
    match v
    case Null => NULL
    case Bool(b) => if b then TRUE else FALSE
    case Number(lexeme) => lexeme
    case Str(text) => Quoted(text)
    case Arr(es) => [LBRACKET] + (CanonElems(es, []) + [RBRACKET])
    case Obj(m) => [LBRACE] + (CanonMembers(v, SortedKeys(m.Keys), []) + [RBRACE])
  }

  /** Elements separated by commas; lead is what comes before the first. */
  ghost function CanonElems(es: seq<Value>, lead: ByteString): ByteString
    decreases es, 0, 0
  {
    if es == [] then [] else lead + (Canon(es[0]) + CanonElems(es[1..], SEPARATOR))
  }

  ghost function CanonMembers(v: Value, ks: seq<Text>, lead: ByteString): ByteString
    requires v.Obj? && forall k | k in ks :: k in v.members
    decreases v, 0, 1 + |ks|
  {
    if ks == [] then []
    else
      assert ks[0] in ks;
      lead + (CanonMember(v, ks[0]) + CanonMembers(v, ks[1..], SEPARATOR))
  }

  ghost function CanonMember(v: Value, k: Text): ByteString
    requires v.Obj? && k in v.members
    decreases v, 0, 0
  {
    Quoted(k) + ([COLON] + Canon(v.members[k]))
  }

  // ---- The code over UTF-8 bytes -----------------------------------------------------

  /** What appendCanonicalString emits for any byte string at all: well-formed characters
      through the table, a bad byte as it is. */
  function EscapeBytes(s: ByteString): ByteString {
    if s == [] then []
    else
      var (c, n) := DecodeRune(s);
      (if GoodHead(s) then Escape(c) else [s[0]]) + EscapeBytes(s[n..])
  }

  /** On valid UTF-8 the byte loop is the escape table applied scalar by scalar. */
  lemma {:induction false} EscapeBytesOfText(cs: Text)
    ensures EscapeBytes(Encode(cs)) == EscapeText(cs)
  {
    if cs != [] {
      DecodeRuneInvertsEncode(cs[0], Encode(cs[1..]));
      assert Encode(cs)[|EncodeScalar(cs[0])|..] == Encode(cs[1..]);
      EscapeBytesOfText(cs[1..]);
    }
  }

  /** A lowercase JSON escape of the code unit r. */
  predicate IsUnicodeEscape(s: ByteString, r: int) {
    && |s| == 6 && s[0] == BACKSLASH && s[1] == LOWER_U
    && Grammar.FourHexDigits(s[2..]) && (forall i | 2 <= i < 6 :: !(0x41 <= s[i] <= 0x46))
    && Grammar.HexUnit(s[2..]) == r
  }

  /** There is exactly one. */
  lemma UnicodeEscapeUnique(s: ByteString, r: int)
    requires 0 <= r < 0x10000
    ensures IsUnicodeEscape(s, r) <==> s == UnicodeEscape(r)
  {
    UnicodeEscapeReads(r);
    if IsUnicodeEscape(s, r) {
      UnicodeEscapeForced(s, r);
    }
  }

  lemma UnicodeEscapeReads(r: int)
    requires 0 <= r < 0x10000
    ensures IsUnicodeEscape(UnicodeEscape(r), r)
  {
    var e := UnicodeEscape(r);
    assert e[2..] == [e[2], e[3], e[4], e[5]];
    HexDigitValues(r);
  }

  lemma UnicodeEscapeForced(s: ByteString, r: int)
    requires 0 <= r < 0x10000 && IsUnicodeEscape(s, r)
    ensures s == UnicodeEscape(r)
  {
    var a, b, c, d := Grammar.HexValue(s[2]), Grammar.HexValue(s[3]), Grammar.HexValue(s[4]), Grammar.HexValue(s[5]);
    assert s[2] == HexDigit(a) && s[3] == HexDigit(b) && s[4] == HexDigit(c) && s[5] == HexDigit(d);
    Grammar.Nibbles(a, b, c, d);
    assert s == [s[0], s[1], s[2], s[3], s[4], s[5]];
  }

  lemma HexDigitValues(r: int)
    requires 0 <= r < 0x10000
    ensures forall n | 0 <= n < 0x10 :: Grammar.IsHexDigit(HexDigit(n)) && Grammar.HexValue(HexDigit(n)) == n
    ensures r == r / 0x1000 * 0x1000 + r / 0x100 % 0x10 * 0x100 + r / 0x10 % 0x10 * 0x10 + r % 0x10
  {
    Grammar.Recombined(r);
  }

  /** Some two-character escape other than that of the solidus stands for c. */
  predicate HasLetter(c: int) {
    exists letter: Byte | letter != SLASH :: Grammar.ShortValue(letter) == c
  }

  /** Which spelling the table chooses: a two-character escape where JSON has one, the
      six-character escape for the other control characters and the three separators, and
      the raw character for all others. */
  lemma EscapeChoice(c: Scalar)
    ensures HasLetter(c) ==>
      |Escape(c)| == 2 && Escape(c)[0] == BACKSLASH && Escape(c)[1] != SLASH && Grammar.ShortValue(Escape(c)[1]) == c
    ensures !HasLetter(c) && (c < 0x20 || c == 0x85 || c == 0x2028 || c == 0x2029) ==> IsUnicodeEscape(Escape(c), c)
    ensures !HasLetter(c) && 0x20 <= c && c != 0x85 && c != 0x2028 && c != 0x2029 ==> Escape(c) == EncodeScalar(c)
  {
    if c == QUOTE || c == BACKSLASH {
      assert Grammar.ShortValue(c) == c;
    } else if ShortLetter(c) != 0 {
      assert Grammar.ShortValue(ShortLetter(c)) == c;
    } else if c < 0x10000 {
      UnicodeEscapeUnique(UnicodeEscape(c), c);
    }
  }

  /** appendUnicodeEscape: six bytes that read as r, and the only lowercase ones that do. */
  method AppendUnicodeEscape(dst: ByteString, r: int) returns (res: ByteString)
    requires 0 <= r < 0x10000
    ensures |res| == |dst| + 6 && res[..|dst|] == dst && IsUnicodeEscape(res[|dst|..], r)
  {
    UnicodeEscapeUnique(UnicodeEscape(r), r);
    res := dst + [BACKSLASH, LOWER_U,
                  HexDigit(r / 0x1000), HexDigit(r / 0x100 % 0x10),
                  HexDigit(r / 0x10 % 0x10), HexDigit(r % 0x10)];
  }

  lemma EscapeAppended(dst: ByteString, res: ByteString, r: int)
    requires 0 <= r < 0x10000
    requires |res| == |dst| + 6 && res[..|dst|] == dst && IsUnicodeEscape(res[|dst|..], r)
    ensures res == dst + UnicodeEscape(r)
  {
    UnicodeEscapeUnique(res[|dst|..], r);
    assert res == res[..|dst|] + res[|dst|..];
  }

  /** What the loop emits for the character at the head of s. */
  function EscapeHead(s: ByteString): ByteString
    requires s != []
  {
    if GoodHead(s) then Escape(DecodeRune(s).0) else [s[0]]
  }

  /** One character above ASCII: raw unless it is a separator; a bad byte reads as U+FFFD,
      which is no separator, and is copied. */
  lemma EscapeStep(s: ByteString, i: nat)
    requires i < |s|
    ensures var (c, n) := DecodeRune(s[i..]);
      && EscapeBytes(s[i..]) == EscapeHead(s[i..]) + EscapeBytes(s[i + n..])
      && (s[i] < 0x80 ==> n == 1 && EscapeHead(s[i..]) == Escape(s[i]))
      && (0x80 <= s[i] ==> EscapeHead(s[i..]) == if IsSeparator(c) then UnicodeEscape(c) else s[i..i + n])
  {
    var t := s[i..];
    var n := DecodeRune(t).1;
    assert t[n..] == s[i + n..] && t[..n] == s[i..i + n];
    if GoodHead(t) {
      EncodeInvertsDecodeRune(t);
    }
  }

  lemma EscapeLoopStep(res: ByteString, s: ByteString, i: nat)
    requires i < |s|
    ensures var (c, n) := DecodeRune(s[i..]);
      && res + EscapeBytes(s[i..]) == (res + EscapeHead(s[i..])) + EscapeBytes(s[i + n..])
      && (s[i] < 0x80 ==> n == 1 && EscapeHead(s[i..]) == Escape(s[i]))
      && (0x80 <= s[i] ==> EscapeHead(s[i..]) == if IsSeparator(c) then UnicodeEscape(c) else s[i..i + n])
  {
    EscapeStep(s, i);
    Assoc(res, EscapeHead(s[i..]), EscapeBytes(s[i + DecodeRune(s[i..]).1..]));
  }

  /** The switch on an ASCII byte. */
  method AppendEscapedByte(dst: ByteString, b: Byte) returns (res: ByteString)
    requires b < 0x80
    ensures res == dst + Escape(b)
  {
    if b == QUOTE || b == BACKSLASH {
      res := dst + [BACKSLASH, b];
    } else if b == 0x08 {
      res := dst + [BACKSLASH, 0x62];
    } else if b == 0x0C {
      res := dst + [BACKSLASH, 0x66];
    } else if b == LF {
      res := dst + [BACKSLASH, 0x6E];
    } else if b == CR {
      res := dst + [BACKSLASH, 0x72];
    } else if b == TAB {
      res := dst + [BACKSLASH, 0x74];
    } else if b < 0x20 {
      res := AppendUnicodeEscape(dst, b);
      EscapeAppended(dst, res, b);
    } else {
      res := dst + [b];
    }
  }

  /** The loop of appendCanonicalString. For a string that came out of the decoder,
      EscapeBytesOfText makes the result the quoted form of its scalars. */
  method AppendCanonicalString(dst: ByteString, s: ByteString) returns (res: ByteString)
    ensures res == dst + ([QUOTE] + (EscapeBytes(s) + [QUOTE]))
  {
    res := dst + [QUOTE];
    ghost var goal := res + EscapeBytes(s);
    var i := 0;
    while i < |s|
      invariant i <= |s|
      invariant res + EscapeBytes(s[i..]) == goal
      decreases |s| - i
    {
      EscapeLoopStep(res, s, i);
      if s[i] < 0x80 {
        res := AppendEscapedByte(res, s[i]);
        i := i + 1;
      } else {
        var (r, size) := DecodeRune(s[i..]);
        if r == 0x85 || r == 0x2028 || r == 0x2029 {
          ghost var before := res;
          res := AppendUnicodeEscape(res, r);
          EscapeAppended(before, res, r);
        } else {
          res := res + s[i..i + size];
        }
        i := i + size;
      }
    }
    assert s[i..] == [] && res + [] == res;
    res := res + [QUOTE];
    Assoc(dst + [QUOTE], EscapeBytes(s), [QUOTE]);
    Assoc(dst, [QUOTE], EscapeBytes(s) + [QUOTE]);
  }

  /** compareUTF16: the first differing scalar decides, else the number of bytes left. On
      every pair of byte strings this has the sign, and the value, of the lexicographic
      comparison of the full UTF-16 forms, bad bytes standing for U+FFFD. */
  method CompareUTF16(a: ByteString, b: ByteString) returns (r: int)
    ensures r == Utf16.Compare(Utf16.Encode(Decode(a)), Utf16.Encode(Decode(b)))
    ensures r == 0 <==> Decode(a) == Decode(b)
  {
    var x, y := a, b;
    CompareTies(Decode(a), Decode(b));
    while |x| > 0 && |y| > 0
      invariant Order(a, b) == Order(x, y)
      decreases |x|
    {
      var (ra, na) := DecodeRune(x);
      var (rb, nb) := DecodeRune(y);
      CompareStep(x, y);
      if ra != rb {
        return Utf16.Compare(Utf16.ScalarUnits(ra), Utf16.ScalarUnits(rb));
      }
      x, y := x[na..], y[nb..];
    }
    r := if |x| < |y| then -1 else if |x| > |y| then 1 else 0;
  }

  /** The comparison of two byte strings by the UTF-16 forms of what they decode to. */
  function Order(a: ByteString, b: ByteString): int {
    Utf16.Compare(Utf16.Encode(Decode(a)), Utf16.Encode(Decode(b)))
  }

  lemma CompareStep(x: ByteString, y: ByteString)
    requires x != [] && y != []
    ensures var ((ra, na), (rb, nb)) := (DecodeRune(x), DecodeRune(y));
      Order(x, y) == if ra == rb then Order(x[na..], y[nb..])
                     else Utf16.Compare(Utf16.ScalarUnits(ra), Utf16.ScalarUnits(rb))
  {
    var (ra, na) := DecodeRune(x);
    var (rb, nb) := DecodeRune(y);
    assert Decode(x)[1..] == Decode(x[na..]) && Decode(y)[1..] == Decode(y[nb..]);
    if ra != rb {
      Utf16.CompareDecided(ra, rb, Utf16.Encode(Decode(x[na..])), Utf16.Encode(Decode(y[nb..])));
    } else {
      Utf16.CompareCommonPrefix(Utf16.ScalarUnits(ra), Utf16.Encode(Decode(x[na..])), Utf16.Encode(Decode(y[nb..])));
    }
  }

  /** Different texts never tie. */
  lemma CompareTies(a: Text, b: Text)
    ensures Utf16.Compare(Utf16.Encode(a), Utf16.Encode(b)) == 0 <==> a == b
  {
    Utf16.CompareAntisymmetric(Utf16.Encode(a), Utf16.Encode(b));
    Utf16.DecodeInvertsEncode(a);
    Utf16.DecodeInvertsEncode(b);
  }

  /** Off valid UTF-8 different byte strings do tie: the order is total only behind the
      decoder's UTF-8 check. */
  lemma BadBytesTie()
    ensures exists a, b :: a != b && !Valid(a) && !Valid(b) && Order(a, b) == 0
  {
    var a: ByteString, b: ByteString := [0xFF], [0xFE];
    assert Decode(a) == [RUNE_ERROR] == Decode(b);
    CompareTies(Decode(a), Decode(b));
    assert a != b && !Valid(a) && !Valid(b) && Order(a, b) == 0;
  }

  /** On valid UTF-8 only equal strings tie. */
  lemma ValidNeverTies(a: ByteString, b: ByteString)
    requires Valid(a) && Valid(b)
    ensures Order(a, b) == 0 <==> a == b
  {
    ValidEncodes(a);
    ValidEncodes(b);
    CompareTies(Decode(a), Decode(b));
  }

  /** slices.SortFunc with compareUTF16. The library promises a sorted permutation; an
      insertion sort stands for whichever algorithm it uses. */
  method SortKeys(keys: seq<Text>) returns (sorted: seq<Text>)
    requires forall i, j | 0 <= i < j < |keys| :: keys[i] != keys[j]
    ensures Sorted(sorted) && forall k :: k in sorted <==> k in keys
  {
    sorted := [];
    for i := 0 to |keys|
      invariant Sorted(sorted) && forall k :: k in sorted <==> k in keys[..i]
    {
      sorted := InsertKey(sorted, keys[i]);
      assert keys[..i + 1] == keys[..i] + [keys[i]];
    }
    assert keys[..|keys|] == keys;
  }

  lemma InsertedSorted(ks: seq<Text>, j: nat, key: Text)
    requires Sorted(ks) && j <= |ks|
    requires forall l | 0 <= l < j :: Utf16.Less(ks[l], key)
    requires j < |ks| ==> Utf16.Less(key, ks[j])
    ensures var r := ks[..j] + [key] + ks[j..];
      Sorted(r) && forall k :: k in r <==> k in ks || k == key
  {
    forall l | j <= l < |ks| ensures Utf16.Less(key, ks[l]) {
      Utf16.LessIsStrictTotal(key, ks[j], ks[l]);
    }
    InsertedAt(ks, j, key);
    InsertedMembers(ks, j, key);
  }

  lemma InsertedAt(ks: seq<Text>, j: nat, key: Text)
    requires Sorted(ks) && j <= |ks|
    requires (forall l | 0 <= l < j :: Utf16.Less(ks[l], key)) && forall l | j <= l < |ks| :: Utf16.Less(key, ks[l])
    ensures Sorted(ks[..j] + [key] + ks[j..])
  {
    var r := ks[..j] + [key] + ks[j..];
    forall a, b | 0 <= a < b < |r| ensures Utf16.Less(r[a], r[b]) {
      assert r[a] == if a < j then ks[a] else if a == j then key else ks[a - 1];
      assert r[b] == if b < j then ks[b] else if b == j then key else ks[b - 1];
    }
  }

  lemma InsertedMembers(ks: seq<Text>, j: nat, key: Text)
    requires j <= |ks|
    ensures forall k :: k in ks[..j] + [key] + ks[j..] <==> k in ks || k == key
  {
    assert ks == ks[..j] + ks[j..];
  }

  method InsertKey(ks: seq<Text>, key: Text) returns (r: seq<Text>)
    requires Sorted(ks) && key !in ks
    ensures Sorted(r) && forall k :: k in r <==> k in ks || k == key
  {
    var j := 0;
    DecodeInvertsEncode(key);
    while j < |ks|
      invariant j <= |ks|
      invariant forall l | 0 <= l < j :: Utf16.Less(ks[l], key)
    {
      DecodeInvertsEncode(ks[j]);
      var c := CompareUTF16(Encode(key), Encode(ks[j]));
      if c < 0 { break; }
      assert ks[j] in ks;
      Utf16.LessIsStrictTotal(key, ks[j], key);
      j := j + 1;
    }
    r := ks[..j] + [key] + ks[j..];
    InsertedSorted(ks, j, key);
  }

  /** appendCanonical: whatever order the map yields its keys in, the bytes appended are
      the canonical form. */
  method AppendCanonical(dst: ByteString, v: Value) returns (res: ByteString)
    ensures res == dst + Canon(v)
    decreases v, 1
  {
    match v
    case Null => res := dst + NULL;
    case Bool(b) => res := dst + if b then TRUE else FALSE;
    case Number(lexeme) => res := dst + lexeme;
    case Str(text) =>
      EscapeBytesOfText(text);
      res := AppendCanonicalString(dst, Encode(text));
    case Arr(es) =>
      res := AppendElems(dst + [LBRACKET], es);
      res := res + [RBRACKET];
      Bracketed(dst, [LBRACKET], CanonElems(es, []), [RBRACKET]);
    case Obj(m) =>
      var keys := CollectKeys(m);
      keys := SortKeys(keys);
      SortedUnique(keys, SortedKeys(m.Keys));
      res := AppendMembers(dst + [LBRACE], v, keys);
      res := res + [RBRACE];
      Bracketed(dst, [LBRACE], CanonMembers(v, keys, []), [RBRACE]);
  }

  lemma Bracketed(dst: ByteString, open: ByteString, body: ByteString, close: ByteString)
    ensures ((dst + open) + body) + close == dst + (open + (body + close))
  {
    Assoc(dst, open, body + close);
    Assoc(dst + open, body, close);
  }

  /** Ranging over a Go map: each key once, in an order the language leaves open. */
  method CollectKeys(m: map<Text, Value>) returns (keys: seq<Text>)
    ensures forall k :: k in keys <==> k in m
    ensures forall i, j | 0 <= i < j < |keys| :: keys[i] != keys[j]
  {
    keys := [];
    var left := m.Keys;
    while left != {}
      invariant left <= m.Keys && forall k :: k in keys <==> k in m && k !in left
      invariant forall i, j | 0 <= i < j < |keys| :: keys[i] != keys[j]
    {
      var k :| k in left;
      keys := keys + [k];
      left := left - {k};
    }
  }

  /** The element loop of appendCanonical. */
  method AppendElems(dst: ByteString, es: seq<Value>) returns (res: ByteString)
    ensures res == dst + CanonElems(es, [])
    decreases es, 0
  {
    res := dst;
    ghost var goal := res + CanonElems(es, []);
    for i := 0 to |es|
      invariant res + CanonElems(es[i..], CommaBefore(i)) == goal
    {
      ElemsStep(es, i);
      ghost var tail := CanonElems(es[i + 1..], CommaBefore(i + 1));
      Assoc(res, CommaBefore(i), Canon(es[i]) + tail);
      Assoc(res + CommaBefore(i), Canon(es[i]), tail);
      if i > 0 { res := res + SEPARATOR; } else { assert res + CommaBefore(i) == res; }
      res := AppendCanonical(res, es[i]);
    }
    assert res + CanonElems(es[|es|..], CommaBefore(|es|)) == res;
  }

  lemma ElemsStep(es: seq<Value>, i: nat)
    requires i < |es|
    ensures CanonElems(es[i..], CommaBefore(i)) == CommaBefore(i) + (Canon(es[i]) + CanonElems(es[i + 1..], CommaBefore(i + 1)))
  {
    assert es[i..][1..] == es[i + 1..];
  }

  lemma MembersStep(v: Value, ks: seq<Text>, i: nat)
    requires v.Obj? && i < |ks| && forall k | k in ks :: k in v.members
    ensures CanonMembers(v, ks[i..], CommaBefore(i))
         == CommaBefore(i) + (CanonMember(v, ks[i]) + CanonMembers(v, ks[i + 1..], CommaBefore(i + 1)))
  {
    assert ks[i..][1..] == ks[i + 1..];
  }

  /** The member loop of appendCanonical, over the sorted keys. */
  method AppendMembers(dst: ByteString, v: Value, keys: seq<Text>) returns (res: ByteString)
    requires v.Obj? && forall k | k in keys :: k in v.members
    ensures res == dst + CanonMembers(v, keys, [])
    decreases v, 0, 1
  {
    res := dst;
    ghost var goal := res + CanonMembers(v, keys, []);
    for i := 0 to |keys|
      invariant res + CanonMembers(v, keys[i..], CommaBefore(i)) == goal
    {
      assert keys[i] in keys;
      MembersStep(v, keys, i);
      ghost var tail := CanonMembers(v, keys[i + 1..], CommaBefore(i + 1));
      Assoc(res, CommaBefore(i), CanonMember(v, keys[i]) + tail);
      Assoc(res + CommaBefore(i), CanonMember(v, keys[i]), tail);
      if i > 0 { res := res + SEPARATOR; } else { assert res + CommaBefore(i) == res; }
      res := AppendMember(res, v, keys[i]);
    }
    assert res + CanonMembers(v, keys[|keys|..], CommaBefore(|keys|)) == res;
  }

  method AppendMember(dst: ByteString, v: Value, key: Text) returns (res: ByteString)
    requires v.Obj? && key in v.members
    ensures res == dst + CanonMember(v, key)
    decreases v, 0, 0
  {
    EscapeBytesOfText(key);
    res := AppendCanonicalString(dst, Encode(key));
    res := res + [COLON];
    res := AppendCanonical(res, v.members[key]);
  }

  /** A comma goes before every element but the first. */
  function CommaBefore(i: nat): ByteString {
    if i == 0 then [] else SEPARATOR
  }
}
