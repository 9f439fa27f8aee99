/** containsDuplicateKey: the explicit-stack scan of fixtures/corpus_test.go, against the
    recursive notion of a repeated key. */
module DuplicateKeys {
  import opened Utf8
  import opened Values
  import opened Grammar
  import opened Lexer
  import opened Tokens
  import opened Decoder
  import opened StrictDecode

  datatype Frame = Frame(isObject: bool, wantKey: bool, keys: set<Text>)

  /** This decoder runs without UseNumber: a lexeme that does not fit a float64 is an
      error. Which lexemes fit is strconv's business. */
  function NextFloat(d: Reader, fits: ByteString -> bool): (r: Result<(Token, Reader)>)
    ensures r.Ok? ==> |r.value.1.rest| < |d.rest|
  {
    match Next(d)
    case Err(e) => Err(e)
    case Ok((tok, d1)) =>
      if tok.Lit? && tok.v.Number? && !fits(tok.v.lexeme) then Err(Syntax) else Ok((tok, d1))
  }

  /** The value position the scan has reached sets its object to expect a key next. */
  function Expect(stack: seq<Frame>): seq<Frame> {
    if stack != [] && stack[|stack| - 1].isObject
    then stack[|stack| - 1 := stack[|stack| - 1].(wantKey := true)]
    else stack
  }

  /** What the loop returns from here on. The reader's stack and the frames stay in step. */
  predicate Scan(d: Reader, stack: seq<Frame>, fits: ByteString -> bool)
    requires |stack| == |d.stack|
    decreases |d.rest|
  {
    match NextFloat(d, fits)
    case Err(_) => false
    case Ok((tok, d1)) =>
      NextKeepsStep(d);
      var n := |stack|;
      if tok.Close? then Scan(d1, stack[..n - 1], fits)
      else if n > 0 && stack[n - 1].isObject && stack[n - 1].wantKey then
        if !(tok.Lit? && tok.v.Str?) then false
        else if tok.v.text in stack[n - 1].keys then true
        else Scan(d1, stack[n - 1 := Frame(true, false, stack[n - 1].keys + {tok.v.text})], fits)
      else if tok.Open? then Scan(d1, Expect(stack) + [Frame(tok.isObject, tok.isObject, {})], fits)
      else Scan(d1, Expect(stack), fits)
  }

  lemma NextKeepsStep(d: Reader)
    requires Next(d).Ok?
    ensures var (tok, d1) := Next(d).value;
      |d1.stack| == |d.stack| + (if tok.Open? then 1 else if tok.Close? then -1 else 0)
    ensures Next(d).value.0.Close? ==> |d.stack| > 0
    decreases |d.rest|
  {
    var s := SkipSpace(d.rest);
    if s[0] == COLON {
      NextKeepsStep(Reader(s[1..], ObjectValue, d.stack));
    } else if s[0] == COMMA {
      NextKeepsStep(Reader(s[1..], if d.state.ArrayComma? then ArrayValue else ObjectKey, d.stack));
    }
  }

  method ContainsDuplicateKey(raw: ByteString, fits: ByteString -> bool) returns (found: bool)
    ensures found == Scan(Reader(raw, TopValue, []), [], fits)
  {
    var d := Reader(raw, TopValue, []);
    var stack: seq<Frame> := [];
    while true
      invariant |stack| == |d.stack|
      invariant Scan(d, stack, fits) == Scan(Reader(raw, TopValue, []), [], fits)
      decreases |d.rest|
    {
      var next := NextFloat(d, fits);
      if next.Err? { return false; }
      NextKeepsStep(d);
      var tok := next.value.0;
      d := next.value.1;
      var n := |stack|;
      if tok.Close? {
        stack := stack[..n - 1];
        continue;
      }
      if n > 0 && stack[n - 1].isObject && stack[n - 1].wantKey {
        if !(tok.Lit? && tok.v.Str?) { return false; }
        var key := tok.v.text;
        if key in stack[n - 1].keys { return true; }
        stack := stack[n - 1 := Frame(true, false, stack[n - 1].keys + {key})];
        continue;
      }
      if n > 0 && stack[n - 1].isObject {
        stack := stack[n - 1 := stack[n - 1].(wantKey := true)];
      }
      if tok.Open? {
        stack := stack + [Frame(tok.isObject, tok.isObject, {})];
      }
    }
  }

  // ---- Against the recursive definition ----------------------------------------------

  /** What the scan may stop at, in document order: a repeated key, or a number that does
      not fit. */
  datatype Mark = Repeat | Unfit

  function Marks(c: Cst, fits: ByteString -> bool): seq<Mark>
    requires Wf(c)
  {
    match c
    case CNumber(n) => if fits(NumText(n)) then [] else [Unfit]
    case CArray(es, _) => ElemsMarks(es, fits)
    case CObject(ms, _) => MembersMarks(ms, {}, fits)
    case _ => []
  }

  function ElemsMarks(es: Elems, fits: ByteString -> bool): seq<Mark>
    requires WfElems(es)
  {
    if es.NoElem? then [] else Marks(es.v, fits) + ElemsMarks(es.tail, fits)
  }

  function MembersMarks(ms: Members, seen: set<Text>, fits: ByteString -> bool): seq<Mark>
    requires WfMembers(ms)
    decreases ms
  {
    if ms.NoMember? then []
    else
      (if StringMeaning(ms.key) in seen then [Repeat] else [])
      + (Marks(ms.v, fits) + MembersMarks(ms.tail, seen + {StringMeaning(ms.key)}, fits))
  }

  /** Keys are unique in the recursive sense exactly when no mark is a repeat. */
  lemma {:induction false} UniqueIffNoRepeat(c: Cst, fits: ByteString -> bool)
    requires Wf(c)
    ensures UniqueKeys(c) <==> Repeat !in Marks(c, fits)
    decreases c
  {
    match c
    case CArray(es, _) => ElemsUniqueIff(es, fits);
    case CObject(ms, _) => MembersUniqueIff(ms, {}, fits);
    case _ =>
  }

  lemma {:induction false} ElemsUniqueIff(es: Elems, fits: ByteString -> bool)
    requires WfElems(es)
    ensures ElemsUnique(es) <==> Repeat !in ElemsMarks(es, fits)
    decreases es
  {
    if es.Elem? {
      UniqueIffNoRepeat(es.v, fits);
      ElemsUniqueIff(es.tail, fits);
    }
  }

  lemma {:induction false} MembersUniqueIff(ms: Members, seen: set<Text>, fits: ByteString -> bool)
    requires WfMembers(ms)
    ensures MembersUnique(ms, seen) <==> Repeat !in MembersMarks(ms, seen, fits)
    decreases ms
  {
    if ms.Member? {
      UniqueIffNoRepeat(ms.v, fits);
      MembersUniqueIff(ms.tail, seen + {StringMeaning(ms.key)}, fits);
    }
  }

  /** The frames the loop has built when it reaches a value or a key. */
  predicate InStep(d: Reader, stack: seq<Frame>) {
    && |stack| == |d.stack|
    && (d.state.TopValue? ==> stack == [])
    && (d.state.ArrayStart? || d.state.ArrayComma? ==> stack != [] && !stack[|stack| - 1].isObject)
    && (d.state.ObjectColon? ==> stack != [] && stack[|stack| - 1].isObject && !stack[|stack| - 1].wantKey)
    && (d.state.ObjectStart? || d.state.ObjectComma? ==> stack != [] && stack[|stack| - 1].isObject && stack[|stack| - 1].wantKey)
  }

  /** The scan's answer at a point with the given marks ahead of it and rest after them. */
  predicate Verdict(marks: seq<Mark>, rest: bool) {
    if marks == [] then rest else marks[0] == Repeat
  }

  lemma VerdictConcat(a: seq<Mark>, b: seq<Mark>, rest: bool)
    ensures Verdict(a + b, rest) == Verdict(a, Verdict(b, rest))
  {
    if a == [] { assert a + b == b; }
  }

  lemma ScanStep(d: Reader, stack: seq<Frame>, fits: ByteString -> bool, tok: Token, d1: Reader)
    requires InStep(d, stack) && AtValue(d.state) && Next(d) == Ok((tok, d1)) && !tok.Close?
    ensures |d1.stack| == |d.stack| + if tok.Open? then 1 else 0
    ensures tok.Open? ==> Scan(d, stack, fits) == Scan(d1, Expect(stack) + [Frame(tok.isObject, tok.isObject, {})], fits)
    ensures tok.Lit? ==> Scan(d, stack, fits) == ((tok.v.Number? ==> fits(tok.v.lexeme)) && Scan(d1, Expect(stack), fits))
  {
    NextKeepsStep(d);
  }

  /** The scan over one value: a mark inside decides it, else it goes on after the value. */
  lemma {:induction false} ScanValue(c: Cst, d: Reader, stack: seq<Frame>, w1: ByteString, w2: ByteString,
        r: ByteString, fits: ByteString -> bool)
    requires Wf(c) && AtValue(d.state) && Spaces(w1) && Spaces(w2) && EndsNumber(r) && InStep(d, stack)
    requires d.rest == w1 + (Lead(d.state) + (w2 + (CstText(c) + r)))
    ensures Scan(d, stack, fits) == Verdict(Marks(c, fits), Scan(Reader(r, After(d.state), d.stack), Expect(stack), fits))
    decreases c
  {
    ValueToken(c, d, w1, w2, r);
    var (tok, d1) := FirstToken(c, d, r);
    ScanStep(d, stack, fits, tok, d1);
    var outer := Expect(stack);
    if tok.Open? {
      var inner := outer + [Frame(tok.isObject, tok.isObject, {})];
      assert inner[..|outer|] == outer;
      match c
      case CArray(es, close) => ScanElems(es, d1, inner, [], close, r, fits);
      case CObject(ms, close) => ScanMembers(ms, d1, inner, [], close, r, fits);
    }
  }

  lemma ScanClose(d: Reader, stack: seq<Frame>, close: ByteString, isObject: bool, r: ByteString, fits: ByteString -> bool)
    requires Spaces(close) && InStep(d, stack) && d.stack != []
    requires d.rest == close + ([if isObject then RBRACE else RBRACKET] + r)
    requires if isObject then d.state.ObjectStart? || d.state.ObjectComma? else d.state.ArrayStart? || d.state.ArrayComma?
    ensures Scan(d, stack, fits)
         == Scan(Popped(d, r), stack[..|stack| - 1], fits)
  {
    NextClose(d, close, isObject, r);
  }

  lemma {:induction false} ScanElems(es: Elems, d: Reader, stack: seq<Frame>, lead: ByteString,
        close: ByteString, r: ByteString, fits: ByteString -> bool)
    requires WfElems(es) && Spaces(close) && InStep(d, stack)
    requires (d.state.ArrayStart? || d.state.ArrayComma?) && d.stack != []
    requires lead == Lead(d.state) && d.rest == ElemsText(es, lead) + (close + ([RBRACKET] + r))
    ensures Scan(d, stack, fits) == Verdict(ElemsMarks(es, fits),
        Scan(Popped(d, r), stack[..|stack| - 1], fits))
    decreases es
  {
    var t := close + ([RBRACKET] + r);
    match es
    case NoElem =>
      NilLeft(t);
      ScanClose(d, stack, close, false, r, fits);
    case Elem(sep, pre, v, tail) =>
      var r1 := ElemsText(tail, SEPARATOR) + t;
      var d1 := Reader(r1, ArrayComma, d.stack);
      ElemsUnfold(es, lead, t);
      ElemsEndNumber(tail, close, r);
      ScanValue(v, d, stack, sep, pre, r1, fits);
      ScanElems(tail, d1, stack, SEPARATOR, close, r, fits);
      VerdictConcat(Marks(v, fits), ElemsMarks(tail, fits),
        Scan(Popped(d, r), stack[..|stack| - 1], fits));
  }

  /** The scan over a key. */
  lemma ScanKey(ms: Members, d: Reader, stack: seq<Frame>, t: ByteString, d1: Reader, fits: ByteString -> bool)
    requires ms.Member? && WfMembers(ms) && (d.state.ObjectStart? || d.state.ObjectComma?) && InStep(d, stack)
    requires d.rest == MembersText(ms, Lead(d.state)) + t
    requires d1 == Reader(MemberTail(ms, t), ObjectColon, d.stack)
    ensures var n := |stack| - 1;
      var k, keys := StringMeaning(ms.key), stack[n].keys;
      Scan(d, stack, fits) == (k in keys || Scan(d1, stack[n := Frame(true, false, keys + {k})], fits))
  {
    MemberKeyComplete(ms, d, t, d1);
  }

  /** The scan over a member: the key decides it, or its value does, or the next key is due. */
  lemma {:induction false} ScanMember(ms: Members, d: Reader, stack: seq<Frame>, close: ByteString,
        r: ByteString, fits: ByteString -> bool)
    requires ms.Member? && WfMembers(ms) && Spaces(close) && InStep(d, stack)
    requires d.state.ObjectStart? || d.state.ObjectComma?
    requires d.rest == MembersText(ms, Lead(d.state)) + (close + ([RBRACE] + r))
    ensures var n := |stack| - 1;
      var k, keys := StringMeaning(ms.key), stack[n].keys;
      var d2 := Reader(MembersText(ms.tail, SEPARATOR) + (close + ([RBRACE] + r)), ObjectComma, d.stack);
      Scan(d, stack, fits)
        == (k in keys || Verdict(Marks(ms.v, fits), Scan(d2, stack[n := Frame(true, true, keys + {k})], fits)))
    decreases ms, 0
  {
    var t := close + ([RBRACE] + r);
    var n := |stack| - 1;
    var k, keys := StringMeaning(ms.key), stack[n].keys;
    var d1 := Reader(MemberTail(ms, t), ObjectColon, d.stack);
    var stack1 := stack[n := Frame(true, false, keys + {k})];
    ScanKey(ms, d, stack, t, d1, fits);
    MembersEndNumber(ms.tail, close, r);
    ScanValue(ms.v, d1, stack1, ms.colon, ms.before, MembersText(ms.tail, SEPARATOR) + t, fits);
    assert Expect(stack1) == stack[n := Frame(true, true, keys + {k})];
  }

  lemma {:induction false} ScanMembers(ms: Members, d: Reader, stack: seq<Frame>, lead: ByteString,
        close: ByteString, r: ByteString, fits: ByteString -> bool)
    requires WfMembers(ms) && Spaces(close) && InStep(d, stack)
    requires (d.state.ObjectStart? || d.state.ObjectComma?) && d.stack != []
    requires lead == Lead(d.state) && d.rest == MembersText(ms, lead) + (close + ([RBRACE] + r))
    ensures Scan(d, stack, fits) == Verdict(MembersMarks(ms, stack[|stack| - 1].keys, fits),
        Scan(Popped(d, r), stack[..|stack| - 1], fits))
    decreases ms, 1
  {
    var t := close + ([RBRACE] + r);
    match ms
    case NoMember =>
      NilLeft(t);
      ScanClose(d, stack, close, true, r, fits);
    case Member(_, _, key, _, _, v, tail) =>
      var n := |stack| - 1;
      var k, keys := StringMeaning(key), stack[n].keys;
      var stack2 := stack[n := Frame(true, true, keys + {k})];
      ScanMember(ms, d, stack, close, r, fits);
      if k !in keys {
        assert stack2[..n] == stack[..n];
        ScanMembers(tail, Reader(MembersText(tail, SEPARATOR) + t, ObjectComma, d.stack), stack2, SEPARATOR, close, r, fits);
        var a, b := Marks(v, fits), MembersMarks(tail, keys + {k}, fits);
        assert MembersMarks(ms, keys, fits) == a + b;
        VerdictConcat(a, b, Scan(Reader(r, ValueEnd(d.stack[n]), d.stack[..n]), stack[..n], fits));
      }
  }

  /** On every document the scan answers true exactly when a repeated key is the first mark. */
  lemma ScanDocument(doc: Document, fits: ByteString -> bool)
    requires WfDocument(doc)
    ensures Scan(Reader(DocumentText(doc), TopValue, []), [], fits)
         == (Marks(doc.value, fits) != [] && Marks(doc.value, fits)[0] == Repeat)
  {
    var t := CstText(doc.value) + doc.after;
    TailEndsNumber(doc.after, []);
    assert doc.after + [] == doc.after;
    NilLeft(t);
    assert Lead(TopValue) + t == t;
    SpaceIsEnd(doc.after, TopValue, []);
    ScanValue(doc.value, Reader(DocumentText(doc), TopValue, []), [], doc.before, [], doc.after, fits);
  }

  /** Every number of the value fits. */
  predicate AllFit(c: Cst, fits: ByteString -> bool)
    requires Wf(c)
  {
    match c
    case CNumber(n) => fits(NumText(n))
    case CArray(es, _) => ElemsFit(es, fits)
    case CObject(ms, _) => MembersFit(ms, fits)
    case _ => true
  }

  predicate ElemsFit(es: Elems, fits: ByteString -> bool)
    requires WfElems(es)
  {
    es.Elem? ==> AllFit(es.v, fits) && ElemsFit(es.tail, fits)
  }

  predicate MembersFit(ms: Members, fits: ByteString -> bool)
    requires WfMembers(ms)
  {
    ms.Member? ==> AllFit(ms.v, fits) && MembersFit(ms.tail, fits)
  }

  lemma {:induction false} AllFitIff(c: Cst, fits: ByteString -> bool)
    requires Wf(c)
    ensures AllFit(c, fits) <==> Unfit !in Marks(c, fits)
    decreases c
  {
    match c
    case CArray(es, _) => ElemsFitIff(es, fits);
    case CObject(ms, _) => MembersFitIff(ms, {}, fits);
    case _ =>
  }

  lemma {:induction false} ElemsFitIff(es: Elems, fits: ByteString -> bool)
    requires WfElems(es)
    ensures ElemsFit(es, fits) <==> Unfit !in ElemsMarks(es, fits)
    decreases es
  {
    if es.Elem? {
      AllFitIff(es.v, fits);
      ElemsFitIff(es.tail, fits);
    }
  }

  lemma {:induction false} MembersFitIff(ms: Members, seen: set<Text>, fits: ByteString -> bool)
    requires WfMembers(ms)
    ensures MembersFit(ms, fits) <==> Unfit !in MembersMarks(ms, seen, fits)
    decreases ms
  {
    if ms.Member? {
      AllFitIff(ms.v, fits);
      MembersFitIff(ms.tail, seen + {StringMeaning(ms.key)}, fits);
    }
  }

  /** On every document whose numbers all fit a float64 the explicit-stack scan answers as
      the recursive definition behind decodeObject. */
  lemma ScanAgreesWhenFit(doc: Document, fits: ByteString -> bool)
    requires WfDocument(doc) && AllFit(doc.value, fits)
    ensures Scan(Reader(DocumentText(doc), TopValue, []), [], fits) <==> !UniqueKeys(doc.value)
  {
    ScanDocument(doc, fits);
    AllFitIff(doc.value, fits);
    UniqueIffNoRepeat(doc.value, fits);
  }

  /** On the others it never reports a repeat that is not there, and misses one exactly when
      a number that does not fit stands before the first repeated key. */
  lemma ScanAgreesIff(doc: Document, fits: ByteString -> bool)
    requires WfDocument(doc)
    ensures var found := Scan(Reader(DocumentText(doc), TopValue, []), [], fits);
      var marks := Marks(doc.value, fits);
      && (found ==> !UniqueKeys(doc.value))
      && (found == !UniqueKeys(doc.value) <==> (Repeat in marks ==> marks[0] != Unfit))
  {
    ScanDocument(doc, fits);
    UniqueIffNoRepeat(doc.value, fits);
  }

  /** {"":0,"":0} */
  function RepeatingObject(): (c: Cst)
    ensures Wf(c) && !UniqueKeys(c)
  {
    var zero := CNumber(Num(false, [ZERO], [], NoExp));
    var last := Member([], [], [], [], [], zero, NoMember);
    var ms := Member([], [], [], [], [], zero, last);
    assert Wf(zero) && WfMembers(last) && WfMembers(ms);
    assert StringMeaning(last.key) in {} + {StringMeaning(ms.key)};
    assert !MembersUnique(last, {} + {StringMeaning(ms.key)});
    CObject(ms, [])
  }

  const OVERFLOW: ByteString := [0x31, 0x65, 0x39, 0x39, 0x39]

  /** 1e999 */
  function OverflowNumber(): (n: Num)
    ensures WfNum(n) && NumText(n) == OVERFLOW
  {
    Num(false, [0x31], [], Exp(0x65, [], [0x39, 0x39, 0x39]))
  }

  /** In [1e999,{"":0,"":0}] a key repeats, and the scan says that none does. */
  lemma ScanMissesRepeat(fits: ByteString -> bool)
    requires !fits(OVERFLOW)
    ensures var tail := Elem([], [], RepeatingObject(), NoElem);
      var doc := Document([], CArray(Elem([], [], CNumber(OverflowNumber()), tail), []), []);
      && WfDocument(doc) && !UniqueKeys(doc.value)
      && !Scan(Reader(DocumentText(doc), TopValue, []), [], fits)
  {
    var tail := Elem([], [], RepeatingObject(), NoElem);
    var es := Elem([], [], CNumber(OverflowNumber()), tail);
    MissedMarks(es, tail, fits);
    ScanDocument(Document([], CArray(es, []), []), fits);
  }

  lemma MissedMarks(es: Elems, tail: Elems, fits: ByteString -> bool)
    requires !fits(OVERFLOW) && tail == Elem([], [], RepeatingObject(), NoElem)
    requires es == Elem([], [], CNumber(OverflowNumber()), tail)
    ensures WfElems(es) && !ElemsUnique(es) && ElemsMarks(es, fits) != [] && ElemsMarks(es, fits)[0] == Unfit
  {
    assert WfElems(tail) && !ElemsUnique(tail);
    assert Marks(es.v, fits) == [Unfit];
  }
}
