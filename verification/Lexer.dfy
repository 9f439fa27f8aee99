/** The lexical level of encoding/json: white space, number and string scanning. The
    package is not part of the repository; these functions say what it does, and the
    lemmas tie them to the grammar in both directions. */
module Lexer {
  import opened Utf8
  import opened Values
  import opened Grammar
  import Utf16

  datatype Option<+T> = None | Some(value: T)

  function SkipSpace(s: ByteString): (r: ByteString)
    ensures |r| <= |s|
    ensures r != [] ==> !IsSpace(r[0])
  {
    if s != [] && IsSpace(s[0]) then SkipSpace(s[1..]) else s
  }

  lemma {:induction false} SkipSpaceOver(w: ByteString, s: ByteString)
    requires Spaces(w)
    ensures SkipSpace(w + s) == SkipSpace(s)
  {
    if w == [] {
      assert w + s == s;
    } else {
      assert (w + s)[1..] == w[1..] + s;
      SkipSpaceOver(w[1..], s);
    }
  }

  /** The white space in front of s. */
  ghost function LeadingSpace(s: ByteString): (w: ByteString)
    ensures Spaces(w) && s == w + SkipSpace(s)
  {
    if s != [] && IsSpace(s[0]) then [s[0]] + LeadingSpace(s[1..]) else []
  }

  // ---- Numbers -----------------------------------------------------------------------

  function SkipDigits(s: ByteString): (r: ByteString)
    ensures |r| <= |s|
  {
    if s != [] && IsDigit(s[0]) then SkipDigits(s[1..]) else s
  }

  ghost function LeadingDigits(s: ByteString): (w: ByteString)
    ensures AllDigits(w) && s == w + SkipDigits(s)
    ensures s != [] && IsDigit(s[0]) ==> |w| > 0 && w[0] == s[0]
  {
    if s != [] && IsDigit(s[0]) then [s[0]] + LeadingDigits(s[1..]) else []
  }

  predicate HeadIsDigit(s: ByteString) { s != [] && IsDigit(s[0]) }

  lemma {:induction false} SkipDigitsOver(w: ByteString, s: ByteString)
    requires AllDigits(w) && !HeadIsDigit(s)
    ensures SkipDigits(w + s) == s
  {
    if w == [] {
      assert w + s == s;
    } else {
      assert (w + s)[1..] == w[1..] + s;
      SkipDigitsOver(w[1..], s);
    }
  }

  function ReadWhole(s: ByteString): (r: Option<ByteString>)
    ensures r.Some? ==> |r.value| < |s|
  {
    if !HeadIsDigit(s) then None else Some(if s[0] == ZERO then s[1..] else SkipDigits(s))
  }

  function ReadFrac(s: ByteString): (r: Option<ByteString>)
    ensures r.Some? ==> |r.value| <= |s|
  {
    if s == [] || s[0] != DOT then Some(s)
    else if HeadIsDigit(s[1..]) then Some(SkipDigits(s[1..]))
    else None
  }

  function SkipSign(s: ByteString): (r: ByteString)
    ensures |r| <= |s|
  {
    if s != [] && (s[0] == PLUS || s[0] == MINUS) then s[1..] else s
  }

  function ReadExp(s: ByteString): (r: Option<ByteString>)
    ensures r.Some? ==> |r.value| <= |s|
  {
    if s == [] || !IsExpLetter(s[0]) then Some(s)
    else if HeadIsDigit(SkipSign(s[1..])) then Some(SkipDigits(SkipSign(s[1..])))
    else None
  }

  /** The number scanner: what is left after the longest number at the head of s, None if
      the scanner stops where no number may end. */
  function ReadNumber(s: ByteString): (r: Option<ByteString>)
    ensures r.Some? ==> |r.value| < |s|
  {
    var t := if s != [] && s[0] == MINUS then s[1..] else s;
    match ReadWhole(t)
    case None => None
    case Some(u) =>
      match ReadFrac(u)
      case None => None
      case Some(w) => ReadExp(w)
  }

  /** A complete number cannot be continued by s. */
  predicate EndsNumber(s: ByteString) {
    s == [] || !(IsDigit(s[0]) || s[0] == DOT || IsExpLetter(s[0]))
  }

  lemma SkipSignOver(sign: ByteString, s: ByteString)
    requires IsSign(sign) && HeadIsDigit(s)
    ensures SkipSign(sign + s) == s
  {
    Drop(sign, s);
    if sign == [] {
      assert sign + s == s;
    }
  }

  lemma ReadExpComplete(e: Exponent, s: ByteString)
    requires WfExp(e) && EndsNumber(s)
    ensures ReadExp(ExpText(e) + s) == Some(s)
  {
    if e.NoExp? {
      assert ExpText(e) + s == s;
    } else {
      Assoc([e.letter], e.sign + e.digits, s);
      Drop([e.letter], e.sign + e.digits + s);
      Assoc(e.sign, e.digits, s);
      SkipSignOver(e.sign, e.digits + s);
      SkipDigitsOver(e.digits, s);
    }
  }

  lemma ReadFracComplete(frac: ByteString, s: ByteString)
    requires AllDigits(frac) && !HeadIsDigit(s) && (s == [] || s[0] != DOT)
    ensures ReadFrac(FracText(frac) + s) == Some(s)
  {
    var t := FracText(frac) + s;
    if frac == [] {
      assert t == s;
    } else {
      assert t[1..] == frac + s;
      SkipDigitsOver(frac, s);
    }
  }

  lemma ReadWholeComplete(whole: ByteString, s: ByteString)
    requires |whole| > 0 && AllDigits(whole) && (whole[0] == ZERO ==> |whole| == 1) && !HeadIsDigit(s)
    ensures ReadWhole(whole + s) == Some(s)
  {
    if whole[0] == ZERO {
      assert (whole + s)[1..] == s;
    } else {
      SkipDigitsOver(whole, s);
    }
  }

  lemma NumberTail(n: Num, s: ByteString)
    ensures NumText(n) + s == Minus(n) + (n.whole + (FracText(n.frac) + (ExpText(n.exp) + s)))
  {
    var x, f := ExpText(n.exp), FracText(n.frac);
    Assoc(Minus(n), n.whole + (f + x), s);
    Assoc(n.whole, f + x, s);
    Assoc(f, x, s);
  }

  /** The scanner reads every number of the grammar to its end. */
  lemma ReadNumberComplete(n: Num, s: ByteString)
    requires WfNum(n) && EndsNumber(s)
    ensures ReadNumber(NumText(n) + s) == Some(s)
  {
    var e := ExpText(n.exp) + s;
    var f := FracText(n.frac) + e;
    NumberTail(n, s);
    ReadExpComplete(n.exp, s);
    assert e == [] || !(IsDigit(e[0]) || e[0] == DOT) by { if n.exp.NoExp? { assert e == s; } }
    ReadFracComplete(n.frac, e);
    assert !HeadIsDigit(f) by { if n.frac == [] { assert f == e; } }
    ReadWholeComplete(n.whole, f);
    Drop(Minus(n), n.whole + f);
    if !n.negative { assert [] + (n.whole + f) == n.whole + f; }
  }

  /** What it reads is a number of the grammar. */
  lemma ReadNumberSound(s: ByteString) returns (n: Num)
    requires ReadNumber(s).Some?
    ensures WfNum(n) && s == NumText(n) + ReadNumber(s).value
  {
    var negative := s[0] == MINUS;
    var t := if negative then s[1..] else s;
    var whole, u := ReadWholeSound(t);
    var frac, w := ReadFracSound(u);
    var exp := ReadExpSound(w);
    n := Num(negative, whole, frac, exp);
    NumberTail(n, ReadExp(w).value);
    assert s == Minus(n) + t;
  }

  lemma ReadWholeSound(s: ByteString) returns (whole: ByteString, rest: ByteString)
    requires ReadWhole(s).Some?
    ensures ReadWhole(s) == Some(rest) && s == whole + rest
    ensures |whole| > 0 && AllDigits(whole) && (whole[0] == ZERO ==> |whole| == 1)
  {
    whole := if s[0] == ZERO then [s[0]] else LeadingDigits(s);
    rest := ReadWhole(s).value;
  }

  lemma ReadFracSound(s: ByteString) returns (frac: ByteString, rest: ByteString)
    requires ReadFrac(s).Some?
    ensures ReadFrac(s) == Some(rest) && s == FracText(frac) + rest && AllDigits(frac)
  {
    rest := ReadFrac(s).value;
    frac := if s == [] || s[0] != DOT then [] else LeadingDigits(s[1..]);
    if frac != [] {
      Assoc([DOT], frac, rest);
    }
  }

  lemma ReadExpSound(s: ByteString) returns (e: Exponent)
    requires ReadExp(s).Some?
    ensures WfExp(e) && s == ExpText(e) + ReadExp(s).value
  {
    if s == [] || !IsExpLetter(s[0]) {
      e := NoExp;
      NilLeft(s);
    } else {
      var sign, u := SkipSignSound(s[1..]);
      var digits := LeadingDigits(u);
      var rest := SkipDigits(u);
      e := Exp(s[0], sign, digits);
      Assoc(sign, digits, rest);
      Assoc([s[0]], sign + digits, rest);
      assert s == [s[0]] + s[1..];
    }
  }

  lemma SkipSignSound(s: ByteString) returns (sign: ByteString, rest: ByteString)
    requires HeadIsDigit(SkipSign(s))
    ensures IsSign(sign) && rest == SkipSign(s) && s == sign + rest
  {
    rest := SkipSign(s);
    if s[0] == PLUS || s[0] == MINUS {
      sign := [s[0]];
    } else {
      sign := [];
      NilLeft(s);
    }
  }

  /** A lexeme is a number exactly when the scanner consumes all of it. */
  lemma NumberIffScanned(lexeme: ByteString)
    ensures IsNumber(lexeme) <==> ReadNumber(lexeme) == Some([])
  {
    if IsNumber(lexeme) {
      var n :| WfNum(n) && lexeme == NumText(n);
      ReadNumberComplete(n, []);
      assert NumText(n) + [] == lexeme;
    }
    if ReadNumber(lexeme) == Some([]) {
      var n := ReadNumberSound(lexeme);
      assert NumText(n) + [] == NumText(n);
      assert WfNum(n) && lexeme == NumText(n);
    }
  }

  // ---- Strings -----------------------------------------------------------------------

  /** hexEscape: the unit of a \uXXXX escape at the head of s. */
  function HexEscape(s: ByteString): Option<Utf16.Unit> {
    if |s| < 6 || s[0] != BACKSLASH || s[1] != LOWER_U || !FourHexDigits(s[2..6]) then None
    else Some(HexUnit(s[2..6]))
  }

  /** A surrogate escape followed at once by its other half. */
  predicate PairAhead(s: ByteString)
    requires |s| >= 6 && HexEscape(s).Some?
  {
    Utf16.IsHigh(HexEscape(s).value) && HexEscape(s[6..]).Some? && Utf16.IsLow(HexEscape(s[6..]).value)
  }

  /** What a string literal decodes to, and what follows it; s starts after the opening quote. */
  function ReadString(s: ByteString): (r: Option<(Text, ByteString)>)
    ensures r.Some? ==> |r.value.1| < |s|
  {
    if s == [] then None
    else if s[0] == QUOTE then Some(([], s[1..]))
    else if s[0] == BACKSLASH then
      if |s| < 2 then None
      else if s[1] == LOWER_U then
        match HexEscape(s)
        case None => None
        case Some(u) =>
          if !Utf16.IsSurrogate(u) then Prepend(u, ReadString(s[6..]))
          else if PairAhead(s) then Prepend(Utf16.Pair(u, HexEscape(s[6..]).value), ReadString(s[12..]))
          else Prepend(RUNE_ERROR, ReadString(s[6..]))
      else if ShortValue(s[1]) < 0 then None
      else Prepend(ShortValue(s[1]), ReadString(s[2..]))
    else if s[0] < 0x20 then None
    else
      var (c, n) := DecodeRune(s);
      Prepend(c, ReadString(s[n..]))
  }

  function Prepend(c: Scalar, r: Option<(Text, ByteString)>): Option<(Text, ByteString)> {
    match r
    case None => None
    case Some((cs, rest)) => Some(([c] + cs, rest))
  }

  /** The bytes of the items, the closing quote, and what follows. */
  function Body(items: seq<Item>, rest: ByteString): ByteString {
    ItemsText(items) + ([QUOTE] + rest)
  }

  lemma BodyStep(items: seq<Item>, rest: ByteString)
    requires items != []
    ensures Body(items, rest) == ItemText(items[0]) + Body(items[1..], rest)
    ensures Body(items, rest)[|ItemText(items[0])|..] == Body(items[1..], rest)
  {
    Assoc(ItemText(items[0]), ItemsText(items[1..]), [QUOTE] + rest);
  }

  /** An escape in the bytes of the items is one of the items. */
  lemma HexAhead(items: seq<Item>, rest: ByteString)
    requires WfItems(items)
    ensures var s := Body(items, rest);
      HexEscape(s) == if items != [] && items[0].Hex? then Some(HexUnit(items[0].digits)) else None
  {
    var s := Body(items, rest);
    if items == [] {
      assert s[0] == QUOTE;
    } else {
      BodyStep(items, rest);
      var it := items[0];
      assert s[0] == ItemText(it)[0];
      if it.Hex? {
        assert s[2..6] == it.digits;
      } else if it.Short? {
        assert s[1] == it.letter;
      }
    }
  }

  /** Only an escape can supply the low half of a pair. */
  lemma FirstUnit(items: seq<Item>)
    requires WfItems(items) && items != []
    ensures var us := ItemsUnits(items);
      |us| > 0 && (Utf16.IsLow(us[0]) ==> items[0].Hex? && us[0] == HexUnit(items[0].digits))
      && (items[0].Hex? ==> us[0] == HexUnit(items[0].digits) && us[1..] == ItemsUnits(items[1..]))
  {

  }

  /** The string reader is complete: every literal is read to its closing quote, and its
      scalars are those its UTF-16 units denote. */
  lemma {:induction false} ReadStringComplete(items: seq<Item>, rest: ByteString)
    requires WfItems(items)
    ensures ReadString(Body(items, rest)) == Some((StringMeaning(items), rest))
    decreases |items|
  {
    var s := Body(items, rest);
    if items == [] {
      assert s == [QUOTE] + rest && s[1..] == rest;
    } else {
      var it, tail := items[0], items[1..];
      BodyStep(items, rest);
      assert s[0] == ItemText(it)[0];
      match it
      case Raw(c) =>
        DecodeRuneInvertsEncode(c, Body(tail, rest));
        Utf16.ScalarPrefix(c, ItemsUnits(tail));
        ReadStringComplete(tail, rest);
      case Short(letter) =>
        assert s[1] == letter;
        assert ItemsUnits(items)[1..] == ItemsUnits(tail);
        ReadStringComplete(tail, rest);
      case Hex(digits) =>
        ReadHexComplete(items, rest);
    }
  }

  lemma {:induction false} ReadHexComplete(items: seq<Item>, rest: ByteString)
    requires WfItems(items) && items != [] && items[0].Hex?
    ensures ReadString(Body(items, rest)) == Some((StringMeaning(items), rest))
    decreases |items|, 0
  {
    var s, tail := Body(items, rest), items[1..];
    BodyStep(items, rest);
    HexAhead(items, rest);
    HexAhead(tail, rest);
    FirstUnit(items);
    if tail != [] { FirstUnit(tail); }
    ReadStringComplete(tail, rest);
    if PairAhead(s) {
      BodyStep(tail, rest);
      ReadStringComplete(tail[1..], rest);
      assert s[12..] == s[6..][6..];
      assert ItemsUnits(items)[2..] == ItemsUnits(tail)[1..];
    }
  }

  /** The string reader is sound: what it accepts is a literal of the grammar. */
  lemma {:induction false} ReadStringSound(s: ByteString) returns (items: seq<Item>)
    requires Valid(s) && ReadString(s).Some?
    ensures WfItems(items) && s == Body(items, ReadString(s).value.1)
    ensures Valid(ReadString(s).value.1)
    decreases |s|
  {
    if s[0] == QUOTE {
      items := [];
      NilLeft([QUOTE] + s[1..]);
      assert s == [QUOTE] + s[1..];
      AsciiPrefix(s, 1);
    } else {
      var it, n := HeadItem(s);
      ReadStringRest(s, n);
      var tail := ReadStringSound(s[n..]);
      items := [it] + tail;
      BodyCons(it, tail, ReadString(s).value.1);
      SplitAt(s, n);
    }
  }

  lemma BodyCons(it: Item, tail: seq<Item>, rest: ByteString)
    ensures Body([it] + tail, rest) == ItemText(it) + Body(tail, rest)
    ensures WfItem(it) && WfItems(tail) ==> WfItems([it] + tail)
  {
    assert ([it] + tail)[1..] == tail;
    BodyStep([it] + tail, rest);
  }

  /** The item spelled at the head of an accepted string body. */
  lemma HeadItem(s: ByteString) returns (it: Item, n: nat)
    requires Valid(s) && ReadString(s).Some? && s[0] != QUOTE
    ensures WfItem(it) && 0 < n <= |s| && ItemText(it) == s[..n] && Valid(s[n..])
    ensures n == if s[0] != BACKSLASH then DecodeRune(s).1 else if s[1] == LOWER_U then 6 else 2
  {
    if s[0] != BACKSLASH {
      n := DecodeRune(s).1;
      it := Raw(DecodeRune(s).0);
      EncodeInvertsDecodeRune(s);
    } else if s[1] == LOWER_U {
      n := 6;
      it := Hex(s[2..6]);
      AsciiPrefix(s, 6);
    } else {
      n := 2;
      it := Short(s[1]);
      AsciiPrefix(s, 2);
    }
  }

  lemma {:induction false} AsciiPrefix(s: ByteString, n: nat)
    requires Valid(s) && n <= |s| && forall i | 0 <= i < n :: s[i] < 0x80
    ensures Valid(s[n..])
  {
    if n > 0 {
      assert s[1..][n - 1..] == s[n..];
      AsciiPrefix(s[1..], n - 1);
    }
  }

  /** Reading on after one item reaches the same end, pairs included. */
  lemma ReadStringRest(s: ByteString, n: nat)
    requires ReadString(s).Some? && s[0] != QUOTE && n <= |s|
    requires n == if s[0] != BACKSLASH then DecodeRune(s).1 else if s[1] == LOWER_U then 6 else 2
    ensures ReadString(s[n..]).Some? && ReadString(s[n..]).value.1 == ReadString(s).value.1
  {
    if n == 6 && s[0] == BACKSLASH && PairAhead(s) {
      var t := s[6..];
      assert t[6..] == s[12..];
      var u := HexEscape(t).value;
      assert Utf16.IsSurrogate(u) && !PairAhead(t);
    }
  }
}
