/** rejectEscapedSurrogates: the raw-byte scan before decoding (internal/contract/json.go). */
module SurrogateScan {
  import opened Utf8
  import opened Values
  import opened Grammar
  import opened Lexer
  import Utf16

  /** The verdict of the scan from a position inside or outside a string: true lets the
      input through. A malformed escape is left to the decoder. */
  predicate Passes(s: ByteString, inString: bool)
    decreases |s|
  {
    if s == [] then true
    else if !inString then Passes(s[1..], s[0] == QUOTE)
    else if s[0] == QUOTE then Passes(s[1..], false)
    else if s[0] != BACKSLASH then Passes(s[1..], true)
    else if |s| == 1 then true
    else if s[1] != LOWER_U then Passes(s[2..], true)
    else
      match HexEscape(s)
      case None => true
      case Some(u) =>
        if !Utf16.IsSurrogate(u) then Passes(s[6..], true)
        else PairAhead(s) && Passes(s[12..], true)
  }

  /** The loop of rejectEscapedSurrogates. */
  method RejectEscapedSurrogates(data: ByteString) returns (ok: bool)
    ensures ok == Passes(data, false)
  {
    var inString := false;
    var i := 0;
    while i < |data|
      invariant 0 <= i <= |data| + 1
      invariant Passes(data, false) == (i > |data| || Passes(data[i..], inString))
      decreases |data| - i
    {
      var b := data[i];
      ghost var s := data[i..];
      if !inString {
        assert s[1..] == data[i + 1..];
        inString := b == QUOTE;
        i := i + 1;
      } else if b == QUOTE {
        assert s[1..] == data[i + 1..];
        inString := false;
        i := i + 1;
      } else if b != BACKSLASH {
        assert s[1..] == data[i + 1..];
        i := i + 1;
      } else if i + 1 == |data| || data[i + 1] != LOWER_U {
        assert i + 1 < |data| ==> s[2..] == data[i + 2..];
        i := i + 2;
      } else {
        match HexEscape(data[i..])
        case None => return true;
        case Some(unit) =>
          if !Utf16.IsSurrogate(unit) {
            assert s[6..] == data[i + 6..];
            i := i + 6;
          } else {
            assert s[6..] == data[i + 6..];
            var low := HexEscape(data[i + 6..]);
            if low.None? || !(Utf16.IsHigh(unit) && Utf16.IsLow(low.value)) {
              return false;
            }
            assert s[12..] == data[i + 12..];
            i := i + 12;
          }
      }
    }
    ok := true;
  }

  lemma {:induction false} PassesOver(t: ByteString, r: ByteString, inString: bool)
    requires forall i | 0 <= i < |t| :: t[i] != QUOTE && (inString ==> t[i] != BACKSLASH)
    ensures Passes(t + r, inString) == Passes(r, inString)
  {
    if t == [] {
      assert t + r == r;
    } else {
      assert (t + r)[1..] == t[1..] + r;
      PassesOver(t[1..], r, inString);
    }
  }

  /** Inside a literal: the scan fails exactly when the literal's units hold an unpaired
      surrogate. An escaped backslash never opens an escape. */
  lemma {:induction false} PassesItems(items: seq<Item>, rest: ByteString)
    requires WfItems(items)
    ensures Passes(Body(items, rest), true) == (StringScalar(items) && Passes(rest, false))
    decreases |items|
  {
    var s := Body(items, rest);
    if items == [] {
      assert s == [QUOTE] + rest && s[1..] == rest;
    } else {
      var tail := items[1..];
      BodyStep(items, rest);
      PassesItems(tail, rest);
      match items[0]
      case Raw(c) =>
        PassesOver(EncodeScalar(c), Body(tail, rest), true);
        Utf16.ScalarPrefix(c, ItemsUnits(tail));
      case Short(letter) =>
        assert s[0] == BACKSLASH && s[1] == letter && letter != LOWER_U;
        assert ItemsUnits(items)[1..] == ItemsUnits(tail);
      case Hex(_) =>
        PassesHex(items, rest);
    }
  }

  lemma {:induction false} PassesHex(items: seq<Item>, rest: ByteString)
    requires WfItems(items) && items != [] && items[0].Hex?
    ensures Passes(Body(items, rest), true) == (StringScalar(items) && Passes(rest, false))
    decreases |items|, 0
  {
    var s, tail := Body(items, rest), items[1..];
    BodyStep(items, rest);
    HexAhead(items, rest);
    HexAhead(tail, rest);
    FirstUnit(items);
    assert s[0] == ItemText(items[0])[0] && s[1] == ItemText(items[0])[1];
    PassesItems(tail, rest);
    if tail != [] { FirstUnit(tail); }
    if PairAhead(s) {
      BodyStep(tail, rest);
      PassesItems(tail[1..], rest);
      assert s[12..] == s[6..][6..];
      assert ItemsUnits(items)[2..] == ItemsUnits(tail)[1..];
    }
  }

  lemma PassesString(items: seq<Item>, r: ByteString)
    requires WfItems(items)
    ensures Passes(StringText(items) + r, false) == (StringScalar(items) && Passes(r, false))
  {
    Assoc([QUOTE], ItemsText(items) + [QUOTE], r);
    Assoc(ItemsText(items), [QUOTE], r);
    Drop([QUOTE], Body(items, r));
    PassesItems(items, r);
  }

  /** On every value of the grammar the scan fails exactly when some literal in it, key or
      value, has an unpaired surrogate escape. */
  lemma {:induction false} PassesValue(c: Cst, r: ByteString)
    requires Wf(c)
    ensures Passes(CstText(c) + r, false) == (ScalarOnly(c) && Passes(r, false))
    decreases c
  {
    match c
    case CString(items) => PassesString(items, r);
    case CNumber(n) => NumberUnquoted(n); PassesOver(NumText(n), r, false);
    case CArray(es, close) =>
      var t := close + [RBRACKET];
      Assoc([LBRACKET], ElemsText(es, []) + t, r);
      Assoc(ElemsText(es, []), t, r);
      PassesOver([LBRACKET], ElemsText(es, []) + (t + r), false);
      PassesElems(es, [], t + r);
      PassesOver(t, r, false);
    case CObject(ms, close) =>
      var t := close + [RBRACE];
      Assoc([LBRACE], MembersText(ms, []) + t, r);
      Assoc(MembersText(ms, []), t, r);
      PassesOver([LBRACE], MembersText(ms, []) + (t + r), false);
      PassesMembers(ms, [], t + r);
      PassesOver(t, r, false);
    case _ => PassesOver(CstText(c), r, false);
  }

  lemma NumberUnquoted(n: Num)
    requires WfNum(n)
    ensures forall i | 0 <= i < |NumText(n)| :: NumText(n)[i] != QUOTE
  {
    assert forall i | 0 <= i < |ExpText(n.exp)| :: ExpText(n.exp)[i] != QUOTE;
    assert forall i | 0 <= i < |FracText(n.frac)| :: FracText(n.frac)[i] != QUOTE;
  }

  lemma {:induction false} PassesElems(es: Elems, lead: ByteString, r: ByteString)
    requires WfElems(es) && forall i | 0 <= i < |lead| :: lead[i] != QUOTE
    ensures Passes(ElemsText(es, lead) + r, false) == (ElemsScalar(es) && Passes(r, false))
    decreases es
  {
    match es
    case NoElem => assert ElemsText(es, lead) + r == r;
    case Elem(sep, pre, v, tail) =>
      var after := ElemsText(tail, SEPARATOR) + r;
      ElemsUnfold(es, lead, r);
      PassesOver(sep, lead + (pre + (CstText(v) + after)), false);
      PassesOver(lead, pre + (CstText(v) + after), false);
      PassesOver(pre, CstText(v) + after, false);
      PassesValue(v, after);
      PassesElems(tail, SEPARATOR, r);
  }

  lemma {:induction false} PassesMembers(ms: Members, lead: ByteString, r: ByteString)
    requires WfMembers(ms) && forall i | 0 <= i < |lead| :: lead[i] != QUOTE
    ensures Passes(MembersText(ms, lead) + r, false) == (MembersScalar(ms) && Passes(r, false))
    decreases ms
  {
    match ms
    case NoMember => assert MembersText(ms, lead) + r == r;
    case Member(sep, pre, key, colon, before, v, tail) =>
      var after := MembersText(tail, SEPARATOR) + r;
      var rest := MemberTail(ms, r);
      MembersUnfold(ms, lead, r);
      PassesOver(sep, lead + (pre + (StringText(key) + rest)), false);
      PassesOver(lead, pre + (StringText(key) + rest), false);
      PassesOver(pre, StringText(key) + rest, false);
      PassesString(key, rest);
      PassesOver(colon, [COLON] + (before + (CstText(v) + after)), false);
      PassesOver([COLON], before + (CstText(v) + after), false);
      PassesOver(before, CstText(v) + after, false);
      PassesValue(v, after);
      PassesMembers(tail, SEPARATOR, r);
  }

  // ---- Token sequences ---------------------------------------------------------------

  /** A lexical token of JSON, or white space between tokens. */
  datatype Lexeme = Blank(space: ByteString) | Mark(b: Byte) | Name(word: ByteString) | Numeral(n: Num) | Literal(items: seq<Item>)

  predicate WfLexeme(x: Lexeme) {
    match x
    case Blank(space) => Spaces(space)
    case Mark(b) => b == LBRACE || b == RBRACE || b == LBRACKET || b == RBRACKET || b == COLON || b == COMMA
    case Name(word) => word == NULL || word == TRUE || word == FALSE
    case Numeral(n) => WfNum(n)
    case Literal(items) => WfItems(items)
  }

  function LexemeText(x: Lexeme): ByteString {
    match x
    case Blank(space) => space
    case Mark(b) => [b]
    case Name(word) => word
    case Numeral(n) => NumText(n)
    case Literal(items) => StringText(items)
  }

  function LexemesText(xs: seq<Lexeme>): ByteString {
    if xs == [] then [] else LexemeText(xs[0]) + LexemesText(xs[1..])
  }

  /** No unpaired surrogate is in the token. */
  predicate LexemeScalar(x: Lexeme)
    requires WfLexeme(x)
  {
    x.Literal? ==> StringScalar(x.items)
  }

  lemma PassesLexeme(x: Lexeme, r: ByteString)
    requires WfLexeme(x)
    ensures Passes(LexemeText(x) + r, false) == (LexemeScalar(x) && Passes(r, false))
  {
    match x
    case Literal(items) => PassesString(items, r);
    case Numeral(n) => NumberUnquoted(n); PassesOver(NumText(n), r, false);
    case _ => PassesOver(LexemeText(x), r, false);
  }

  /** Soundness and completeness on every sequence of lexical tokens, whether or not it is
      a document: the scan fails exactly when some literal denotes an unpaired surrogate. */
  lemma {:induction false} ScanIffLiteralsScalar(xs: seq<Lexeme>)
    requires forall i | 0 <= i < |xs| :: WfLexeme(xs[i])
    ensures Passes(LexemesText(xs), false) <==> forall i | 0 <= i < |xs| :: LexemeScalar(xs[i])
  {
    if xs != [] {
      PassesLexeme(xs[0], LexemesText(xs[1..]));
      ScanIffLiteralsScalar(xs[1..]);
      assert forall i | 0 <= i < |xs| - 1 :: xs[1..][i] == xs[i + 1];
      assert forall i | 1 <= i < |xs| :: xs[i] == xs[1..][i - 1];
    }
  }

  /** Soundness and completeness on whole documents. */
  lemma ScanIffScalarOnly(doc: Document)
    requires WfDocument(doc)
    ensures Passes(DocumentText(doc), false) <==> ScalarOnly(doc.value)
  {
    PassesOver(doc.before, CstText(doc.value) + doc.after, false);
    PassesValue(doc.value, doc.after);
    PassesOver(doc.after, [], false);
    assert doc.after + [] == doc.after;
  }
}
