/** Small documents written out: what fixes the letters, words and limits that the decoder
    and the grammar share. */
module Examples {
  import opened Utf8
  import opened Values
  import opened Grammar
  import opened Lexer
  import opened Tokens
  import opened Decoder
  import opened Canonical
  import opened StrictDecode
  import opened RoundTrip
  import opened CanonicalText
  import Utf16

  // ---- Literals and numbers ----------------------------------------------------------

  /** The three literal names, read and written. */
  lemma LiteralNames()
    ensures var (n, t, f) := (Ascii("null"), Ascii("true"), Ascii("false"));
      && Canon(Null) == n && Canon(Bool(true)) == t && Canon(Bool(false)) == f
      && Strict(n) == Ok(Null) && Strict(t) == Ok(Bool(true)) && Strict(f) == Ok(Bool(false))
  {
    Characters();
    RoundTrips(Null);
    RoundTrips(Bool(true));
    RoundTrips(Bool(false));
  }

  /** A number is read as its lexeme and written as it was read. */
  lemma LexemesStay(lexeme: ByteString)
    requires IsNumber(lexeme)
    ensures Strict(lexeme) == Ok(Number(lexeme)) && Canon(Number(lexeme)) == lexeme
  {
    RoundTrips(Number(lexeme));
  }

  /** Numbers of section 6 of RFC 8259. */
  lemma PlainNumbers()
    ensures IsNumber(['-' as int, '0' as int]) && IsNumber(['1' as int, '0' as int])
  {
    Characters();
    var zero, ten := Num(true, ['0' as int], [], NoExp), Num(false, ['1' as int, '0' as int], [], NoExp);
    assert NumText(zero) == [MINUS] + (['0' as int] + ([] + []));
    assert NumText(ten) == [] + (['1' as int, '0' as int] + ([] + []));
    assert MINUS == '-' as int by { assert [PLUS, MINUS, DOT, ZERO][1] == '-' as int; }
    assert WfNum(zero) && NumText(zero) == ['-' as int, '0' as int];
    assert WfNum(ten) && NumText(ten) == ['1' as int, '0' as int];
  }

  /** One with every part: -1.5E+2. */
  lemma FullNumber()
    ensures IsNumber(['-' as int, '1' as int, '.' as int, '5' as int, 'E' as int, '+' as int, '2' as int])
  {
    Characters();
    assert [PLUS, MINUS, DOT, ZERO] == ['+' as int, '-' as int, '.' as int, '0' as int];
    var exp := Exp('E' as int, ['+' as int], ['2' as int]);
    var n := Num(true, ['1' as int], ['5' as int], exp);
    assert ExpText(exp) == ['E' as int, '+' as int, '2' as int] && FracText(n.frac) == ['.' as int, '5' as int];
    assert WfNum(n) && NumText(n) == ['-' as int, '1' as int, '.' as int, '5' as int, 'E' as int, '+' as int, '2' as int];
  }

  /** What is no number: nothing, a sign, a leading zero or plus, a lone fraction. */
  lemma NoNumbers()
    ensures !IsNumber([]) && !IsNumber(Ascii("-")) && !IsNumber(Ascii("01")) && !IsNumber(Ascii("+1"))
    ensures !IsNumber(Ascii(".5"))
  {
    NumberIffScanned([]);
    NumberIffScanned(Ascii("-"));
    NumberIffScanned(Ascii("01"));
    NumberIffScanned(Ascii("+1"));
    NumberIffScanned(Ascii(".5"));
    assert Ascii("-")[1..] == [];
    assert Ascii("01")[1..] == Ascii("1");
  }

  /** Nor is one whose last part has no digit. */
  lemma NoLastDigit()
    ensures !IsNumber(Ascii("1.")) && !IsNumber(Ascii("1e")) && !IsNumber(Ascii("1e+"))
  {
    NumberIffScanned(Ascii("1."));
    NumberIffScanned(Ascii("1e"));
    NumberIffScanned(Ascii("1e+"));
    OneThen(Ascii("1."), Ascii("."));
    OneThen(Ascii("1e"), Ascii("e"));
    OneThen(Ascii("1e+"), Ascii("e+"));
    assert Ascii(".")[1..] == [] && Ascii("e")[1..] == [] && Ascii("e+")[1..] == Ascii("+") && Ascii("+")[1..] == [];
  }

  lemma OneThen(s: ByteString, t: ByteString)
    requires s == Ascii("1") + t && t != [] && !IsDigit(t[0])
    ensures ReadWhole(s) == Some(t) && ReadNumber(s) == match ReadFrac(t) case None => None case Some(u) => ReadExp(u)
  {
    assert s[1..] == t && SkipDigits(t) == t;
  }

  // ---- Depth -------------------------------------------------------------------------

  function Times(b: Byte, n: nat): ByteString {
    if n == 0 then [] else [b] + Times(b, n - 1)
  }

  lemma {:induction false} TimesSnoc(b: Byte, n: nat)
    ensures Times(b, n) + [b] == [b] + Times(b, n)
  {
    if n > 0 {
      TimesSnoc(b, n - 1);
      Assoc([b], Times(b, n - 1), [b]);
    }
  }

  /** n arrays, each in the next. */
  function Nested(n: nat): Value
    requires n > 0
  {
    if n == 1 then Arr([]) else Arr([Nested(n - 1)])
  }

  lemma {:induction false} NestedText(n: nat)
    requires n > 0
    ensures Canon(Nested(n)) == Times('[' as int, n) + Times(']' as int, n)
    ensures NumbersValid(Nested(n)) && forall m: int :: DepthAtMost(Nested(n), m) <==> n <= m
  {
    Characters();
    assert [LBRACKET, LBRACE, RBRACKET, RBRACE, COLON, COMMA][0] == '[' as int;
    assert [LBRACKET, LBRACE, RBRACKET, RBRACE, COLON, COMMA][2] == ']' as int;
    if n == 1 {
      assert Times('[' as int, 1) == ['[' as int] + [] && Times(']' as int, 1) == [']' as int] + [];
      assert CanonElems([], []) == [];
    } else {
      var v := Nested(n - 1);
      NestedText(n - 1);
      assert [v][1..] == [] && CanonElems([v], []) == [] + (Canon(v) + []);
      var o, c := Times('[' as int, n - 1), Times(']' as int, n - 1);
      TimesSnoc(']' as int, n - 1);
      assert Canon(Nested(n)) == ['[' as int] + ((o + c) + [']' as int]);
      assert (o + c) + [']' as int] == o + (c + [']' as int]);
      assert ['[' as int] + (o + ([']' as int] + c)) == (['[' as int] + o) + ([']' as int] + c);
      forall m: int ensures DepthAtMost(Nested(n), m) <==> n <= m {
        assert forall e | e in [v] :: e == v;
        assert v in [v];
        assert DepthAtMost(v, m - 1) <==> n - 1 <= m - 1;
      }
    }
  }

  /** The cap is sixty-four: that many arrays around each other are read, one more are not. */
  lemma DepthCap(n: nat)
    requires n > 0
    ensures Strict(Times('[' as int, n) + Times(']' as int, n)) == Ok(Nested(n)) <==> n <= 64
  {
    NestedText(n);
    RoundTrips(Nested(n));
  }

  // ---- Containers and strings --------------------------------------------------------

  const A: Text := ['a' as int]
  const B: Text := ['b' as int]

  lemma EmptyContainers()
    ensures Canon(Arr([])) == Ascii("[]") && Canon(Obj(map[])) == Ascii("{}")
    ensures Strict(Ascii("[]")) == Ok(Arr([])) && Strict(Ascii("{}")) == Ok(Obj(map[]))
  {
    Characters();
    Marks();
    var none: map<Text, Value> := map[];
    SortedUnique(SortedKeys(none.Keys), []);
    assert CanonElems([], []) == [] && CanonMembers(Obj(none), [], []) == [];
    RoundTrips(Arr([]));
    RoundTrips(Obj(none));
  }

  /** The structural characters one by one. */
  lemma Marks()
    ensures LBRACKET == '[' as int && LBRACE == '{' as int && RBRACKET == ']' as int && RBRACE == '}' as int
    ensures COLON == ':' as int && SEPARATOR == [',' as int] && QUOTE == '"' as int
  {
    Characters();
  }

  /** Two elements, with a comma between them. */
  lemma TwoElements(x: Value, y: Value)
    ensures Canon(Arr([x, y])) == ['[' as int] + (Canon(x) + ([',' as int] + (Canon(y) + [']' as int])))
  {
    Marks();
    assert [x, y][1..] == [y] && [y][1..] == [];
    var cx, cy := Canon(x), Canon(y);
    assert CanonElems([y], SEPARATOR) == SEPARATOR + (cy + []);
    assert CanonElems([x, y], []) == [] + (cx + (SEPARATOR + (cy + [])));
    Bracket(cx, SEPARATOR + cy, [RBRACKET]);
    Assoc(SEPARATOR, cy, [RBRACKET]);
    assert cy + [] == cy;
    NilLeft(cx + (SEPARATOR + cy));
  }

  lemma Bracket(a: ByteString, b: ByteString, c: ByteString)
    ensures (a + b) + c == a + (b + c)
  {
  }

  /** Two members: the smaller key first, each key quoted and followed by a colon. */
  lemma TwoMembers(x: Value, y: Value)
    ensures var m := map[A := x, B := y];
      CanonMember(Obj(m), A) == QuotedLetter('a') + ([':' as int] + Canon(x))
      && CanonMember(Obj(m), B) == QuotedLetter('b') + ([':' as int] + Canon(y))
      && Canon(Obj(m)) == ['{' as int] + ((CanonMember(Obj(m), A) + ([',' as int] + CanonMember(Obj(m), B))) + ['}' as int])
  {
    var m := map[A := x, B := y];
    Marks();
    LetterQuoted('a');
    LetterQuoted('b');
    Utf16.LessByRank(A, B);
    assert Utf16.RanksFirst(A, B, 0);
    assert Sorted([A, B]);
    CanonOfSorted(m, [A, B]);
    TwoMembersText(Obj(m));
  }

  lemma TwoMembersText(v: Value)
    requires v.Obj? && A in v.members && B in v.members
    ensures CanonMembers(v, [A, B], []) == CanonMember(v, A) + ([',' as int] + CanonMember(v, B))
  {
    Marks();
    assert [A, B][1..] == [B] && [B][1..] == [];
    var a, b := CanonMember(v, A), CanonMember(v, B);
    assert CanonMembers(v, [B], SEPARATOR) == SEPARATOR + (b + []);
    assert b + [] == b;
    NilLeft(a + (SEPARATOR + b));
  }

  function QuotedLetter(c: char): ByteString
    requires c < '\U{80}'
  {
    ['"' as int, c as int, '"' as int]
  }

  lemma LetterQuoted(c: char)
    requires 'a' <= c <= 'z'
    ensures Quoted([c as int]) == QuotedLetter(c)
  {
    Marks();
    assert [c as int as Scalar][1..] == [];
    assert EscapeText([c as int]) == [c as int] + [];
  }

  /** A line feed is written as a backslash and an n, and a solidus as it is. */
  lemma TwoStrings()
    ensures Canon(Str([0x0A])) == ['"' as int, '\\' as int, 'n' as int, '"' as int]
    ensures Canon(Str(['/' as int])) == ['"' as int, '/' as int, '"' as int]
  {
    Marks();
    assert [0x0A as Scalar][1..] == [] && ['/' as int as Scalar][1..] == [];
    assert EscapeText([0x0A]) == [BACKSLASH, 'n' as int] + [];
    assert EscapeText(['/' as int]) == ['/' as int] + [];
  }
}
