/** The strict decoder: internal/contract/json.go. */
module Decoder {
  import opened Utf8
  import opened Values
  import opened Grammar
  import opened Lexer
  import opened Tokens

  const MAX_DEPTH: nat := 64

  // ---- What the recursive decoder computes, for any depth cap ------------------------

  /** decodeValue: depth is the level a container here would occupy. */
  function ParseValue(d: Reader, depth: nat, cap: nat): (r: Result<(Value, Reader)>)
    ensures r.Ok? ==> |r.value.1.rest| < |d.rest|
    decreases |d.rest|, 0
  {
    match Next(d)
    case Err(e) => Err(e)
    case Ok((tok, d1)) =>
      match tok
      case Lit(v) => Ok((v, d1))
      case Open(isObject) =>
        if depth > cap then Err(TooDeep)
        else if isObject then ParseMembers(d1, depth, cap, map[])
        else ParseElems(d1, depth, cap, [])
      case Close(_) => if depth > cap then Err(TooDeep) else Err(UnexpectedDelimiter)
  }

  /** decodeArray, with the elements read so far. */
  function ParseElems(d: Reader, depth: nat, cap: nat, acc: seq<Value>): (r: Result<(Value, Reader)>)
    ensures r.Ok? ==> |r.value.1.rest| < |d.rest|
    decreases |d.rest|, 1
  {
    if More(d) then
      match ParseValue(d, depth + 1, cap)
      case Err(e) => Err(e)
      case Ok((v, d1)) => ParseElems(d1, depth, cap, acc + [v])
    else
      match Next(d)
      case Err(e) => Err(e)
      case Ok((_, d1)) => Ok((Arr(acc), d1))
  }

  /** decodeObject, with the members read so far. */
  function ParseMembers(d: Reader, depth: nat, cap: nat, acc: map<Text, Value>): (r: Result<(Value, Reader)>)
    ensures r.Ok? ==> |r.value.1.rest| < |d.rest|
    decreases |d.rest|, 1
  {
    if More(d) then
      match Next(d)
      case Err(e) => Err(e)
      case Ok((tok, d1)) =>
        if !(tok.Lit? && tok.v.Str?) then Err(KeyNotString)
        else if tok.v.text in acc then Err(DuplicateKey)
        else
          match ParseValue(d1, depth + 1, cap)
          case Err(e) => Err(e)
          case Ok((v, d2)) => ParseMembers(d2, depth, cap, acc[tok.v.text := v])
    else
      match Next(d)
      case Err(e) => Err(e)
      case Ok((_, d1)) => Ok((Obj(acc), d1))
  }

  // ---- Completeness: every admissible text is decoded to its meaning ------------------

  /** Where a value may be read, the separator before it still pending. */
  predicate AtValue(s: State) {
    s.TopValue? || s.ArrayStart? || s.ArrayComma? || s.ObjectColon?
  }

  /** The state after the value. */
  function After(s: State): State { ValueEnd(Mid(s)) }

  lemma CstStarts(c: Cst, r: ByteString)
    requires Wf(c)
    ensures var t := CstText(c) + r; StartsToken(t) && t[0] != RBRACKET && t[0] != RBRACE
    ensures var b := (CstText(c) + r)[0]; match c
      case CNull => b == NULL[0]
      case CBool(_) => b == TRUE[0] || b == FALSE[0]
      case CNumber(n) => b == MINUS || IsDigit(b)
      case CString(_) => b == QUOTE
      case CArray(_, _) => b == LBRACKET
      case CObject(_, _) => b == LBRACE
  {
    if c.CNumber? {
      NumberTail(c.n, r);
      assert CstText(c)[0] == if c.n.negative then MINUS else c.n.whole[0];
    }
  }

  /** A scalar value is read whole, whatever ends it. */
  lemma LiteralComplete(c: Cst, r: ByteString)
    requires Wf(c) && !c.CArray? && !c.CObject? && (c.CNumber? ==> EndsNumber(r))
    ensures CstText(c) + r != [] && ReadLiteral(CstText(c) + r) == Some((Meaning(c), r))
  {
    var t := CstText(c) + r;
    CstStarts(c, r);
    Drop(CstText(c), r);
    match c
    case CString(items) =>
      Assoc(ItemsText(items), [QUOTE], r);
      Assoc([QUOTE], ItemsText(items) + [QUOTE], r);
      assert t == [QUOTE] + Body(items, r) && t[1..] == Body(items, r);
      ReadStringComplete(items, r);
    case CNumber(n) =>
      ReadNumberComplete(n, r);
      assert t[..|t| - |r|] == NumText(n);
      assert t[0] != QUOTE && t[0] != NULL[0] && t[0] != TRUE[0] && t[0] != FALSE[0];
    case _ =>
      assert CstText(c) <= t;
      assert t[0] != QUOTE;
  }

  /** The first bytes of what follows a value inside a container end any number. */
  lemma TailEndsNumber(w: ByteString, t: ByteString)
    requires Spaces(w) && EndsNumber(t)
    ensures EndsNumber(w + t)
  {
    if w == [] { assert w + t == t; } else { assert IsSpace((w + t)[0]); }
  }

  lemma ElemsEndNumber(es: Elems, close: ByteString, r: ByteString)
    requires WfElems(es) && Spaces(close)
    ensures EndsNumber(ElemsText(es, SEPARATOR) + (close + ([RBRACKET] + r)))
  {
    var t := close + ([RBRACKET] + r);
    TailEndsNumber(close, [RBRACKET] + r);
    if es.NoElem? {
      assert ElemsText(es, SEPARATOR) + t == t;
    } else {
      ElemsUnfold(es, SEPARATOR, t);
      TailEndsNumber(es.sep, SEPARATOR + (es.pre + (CstText(es.v) + (ElemsText(es.tail, SEPARATOR) + t))));
    }
  }

  lemma MembersEndNumber(ms: Members, close: ByteString, r: ByteString)
    requires WfMembers(ms) && Spaces(close)
    ensures EndsNumber(MembersText(ms, SEPARATOR) + (close + ([RBRACE] + r)))
  {
    var t := close + ([RBRACE] + r);
    TailEndsNumber(close, [RBRACE] + r);
    if ms.NoMember? {
      assert MembersText(ms, SEPARATOR) + t == t;
    } else {
      MembersUnfold(ms, SEPARATOR, t);
      TailEndsNumber(ms.sep, SEPARATOR + (ms.pre + (StringText(ms.key) + MemberTail(ms, t))));
    }
  }

  /** The token a value of the grammar starts with, and where it leaves the reader. */
  function FirstToken(c: Cst, d: Reader, r: ByteString): (Token, Reader)
    requires Wf(c)
  {
    match c
    case CArray(es, close) =>
      (Open(false), Reader(ElemsText(es, []) + (close + ([RBRACKET] + r)), ArrayStart, d.stack + [Mid(d.state)]))
    case CObject(ms, close) =>
      (Open(true), Reader(MembersText(ms, []) + (close + ([RBRACE] + r)), ObjectStart, d.stack + [Mid(d.state)]))
    case _ => (Lit(Meaning(c)), Reader(r, After(d.state), d.stack))
  }

  lemma ContainerText(open: ByteString, body: ByteString, close: ByteString, end: ByteString, r: ByteString)
    requires |open| == 1
    ensures var t := (open + (body + (close + end))) + r;
      t == open + (body + (close + (end + r))) && t[1..] == body + (close + (end + r))
  {
    Assoc(open, body + (close + end), r);
    Assoc(body, close + end, r);
    Assoc(close, end, r);
    Drop(open, body + (close + (end + r)));
  }

  lemma ValueToken(c: Cst, d: Reader, w1: ByteString, w2: ByteString, r: ByteString)
    requires Wf(c) && AtValue(d.state) && Spaces(w1) && Spaces(w2) && EndsNumber(r)
    requires d.rest == w1 + (Lead(d.state) + (w2 + (CstText(c) + r)))
    ensures More(d) && Next(d) == Ok(FirstToken(c, d, r))
  {
    var t := CstText(c) + r;
    CstStarts(c, r);
    NextSkips(d, w1, w2, t);
    assert SkipSpace(t) == t;
    match c
    case CArray(es, close) => ContainerText([LBRACKET], ElemsText(es, []), close, [RBRACKET], r);
    case CObject(ms, close) => ContainerText([LBRACE], MembersText(ms, []), close, [RBRACE], r);
    case _ => LiteralComplete(c, r);
  }

  /** The value reader is complete. */
  lemma {:induction false} ValueComplete(c: Cst, d: Reader, w1: ByteString, w2: ByteString, r: ByteString, depth: nat, cap: nat)
    requires Wf(c) && UniqueKeys(c) && CstDepth(c, cap - depth + 1)
    requires AtValue(d.state) && Spaces(w1) && Spaces(w2) && EndsNumber(r)
    requires d.rest == w1 + (Lead(d.state) + (w2 + (CstText(c) + r)))
    ensures ParseValue(d, depth, cap) == Ok((Meaning(c), Reader(r, After(d.state), d.stack)))
    ensures More(d)
    decreases c
  {
    ValueToken(c, d, w1, w2, r);
    var d1 := FirstToken(c, d, r).1;
    match c
    case CArray(es, close) =>
      ElemsComplete(es, d1, [], close, r, depth, cap, []);
      assert [] + ElemsMeaning(es) == ElemsMeaning(es);
    case CObject(ms, close) =>
      var none: map<Text, Value> := map[];
      assert none.Keys == {};
      MembersComplete(ms, d1, [], close, r, depth, cap, none);
    case _ =>
  }

  lemma {:induction false} ElemsComplete(es: Elems, d: Reader, lead: ByteString, close: ByteString,
        r: ByteString, depth: nat, cap: nat, acc: seq<Value>)
    requires WfElems(es) && ElemsUnique(es) && ElemsDepth(es, cap - depth) && Spaces(close)
    requires (d.state.ArrayStart? || d.state.ArrayComma?) && d.stack != []
    requires lead == Lead(d.state) && d.rest == ElemsText(es, lead) + (close + ([RBRACKET] + r))
    ensures ParseElems(d, depth, cap, acc)
         == Ok((Arr(acc + ElemsMeaning(es)), Popped(d, r)))
    decreases es
  {
    var t := close + ([RBRACKET] + r);
    match es
    case NoElem =>
      assert d.rest == t;
      NextClose(d, close, false, r);
      ElemsAdvance(es, acc);
    case Elem(sep, pre, v, tail) =>
      var r1 := ElemsText(tail, SEPARATOR) + t;
      ElemsUnfold(es, lead, t);
      ElemsEndNumber(tail, close, r);
      ValueComplete(v, d, sep, pre, r1, depth + 1, cap);
      ElemsComplete(tail, Reader(r1, ArrayComma, d.stack), SEPARATOR, close, r, depth, cap, acc + [Meaning(v)]);
      ElemsAdvance(es, acc);
  }

  lemma ElemsAdvance(es: Elems, acc: seq<Value>)
    requires WfElems(es)
    ensures acc + ElemsMeaning(es)
         == if es.NoElem? then acc else acc + [Meaning(es.v)] + ElemsMeaning(es.tail)
  {
  }

  lemma {:induction false} MembersComplete(ms: Members, d: Reader, lead: ByteString, close: ByteString,
        r: ByteString, depth: nat, cap: nat, acc: map<Text, Value>)
    requires WfMembers(ms) && MembersUnique(ms, acc.Keys) && MembersDepth(ms, cap - depth) && Spaces(close)
    requires (d.state.ObjectStart? || d.state.ObjectComma?) && d.stack != []
    requires lead == Lead(d.state) && d.rest == MembersText(ms, lead) + (close + ([RBRACE] + r))
    ensures ParseMembers(d, depth, cap, acc)
         == Ok((Obj(MembersMeaning(ms, acc)), Popped(d, r)))
    decreases ms
  {
    var t := close + ([RBRACE] + r);
    match ms
    case NoMember =>
      assert d.rest == t;
      NextClose(d, close, true, r);
    case Member(_, _, key, colon, before, v, tail) =>
      var r1 := MembersText(tail, SEPARATOR) + t;
      var d1 := Reader(colon + ([COLON] + (before + (CstText(v) + r1))), ObjectColon, d.stack);
      var d2 := Reader(r1, ObjectComma, d.stack);
      var k := StringMeaning(key);
      MemberKeyComplete(ms, d, t, d1);
      MembersEndNumber(tail, close, r);
      ValueComplete(v, d1, colon, before, r1, depth + 1, cap);
      MembersStep(d, d1, d2, depth, cap, acc, k, Meaning(v));
      MembersAdvance(ms, acc);
      MembersComplete(tail, d2, SEPARATOR, close, r, depth, cap, acc[k := Meaning(v)]);
  }

  lemma MembersStep(d: Reader, d1: Reader, d2: Reader, depth: nat, cap: nat, acc: map<Text, Value>, k: Text, v: Value)
    requires More(d) && Next(d) == Ok((Lit(Str(k)), d1)) && k !in acc
    requires ParseValue(d1, depth + 1, cap) == Ok((v, d2))
    ensures ParseMembers(d, depth, cap, acc) == ParseMembers(d2, depth, cap, acc[k := v])
  {
  }

  lemma MembersAdvance(ms: Members, acc: map<Text, Value>)
    requires ms.Member? && WfMembers(ms) && MembersUnique(ms, acc.Keys)
    ensures var acc1 := acc[StringMeaning(ms.key) := Meaning(ms.v)];
      StringMeaning(ms.key) !in acc && MembersUnique(ms.tail, acc1.Keys)
      && MembersMeaning(ms, acc) == MembersMeaning(ms.tail, acc1)
  {
    var k := StringMeaning(ms.key);
    assert acc.Keys + {k} == acc[k := Meaning(ms.v)].Keys;
  }

  lemma MemberKeyComplete(ms: Members, d: Reader, t: ByteString, d1: Reader)
    requires ms.Member? && WfMembers(ms) && (d.state.ObjectStart? || d.state.ObjectComma?)
    requires d.rest == MembersText(ms, Lead(d.state)) + t
    requires d1 == Reader(MemberTail(ms, t), ObjectColon, d.stack)
    ensures More(d) && Next(d) == Ok((Lit(Str(StringMeaning(ms.key))), d1))
  {
    MembersUnfold(ms, Lead(d.state), t);
    var _ := KeyComplete(d, ms.sep, ms.pre, ms.key, MemberTail(ms, t));
  }

  /** A key is read with the separator before it. */
  lemma KeyComplete(d: Reader, w1: ByteString, w2: ByteString, key: seq<Item>, r: ByteString) returns (d1: Reader)
    requires WfItems(key) && Spaces(w1) && Spaces(w2) && (d.state.ObjectStart? || d.state.ObjectComma?)
    requires d.rest == w1 + (Lead(d.state) + (w2 + (StringText(key) + r)))
    ensures d1 == Reader(r, ObjectColon, d.stack)
    ensures More(d) && Next(d) == Ok((Lit(Str(StringMeaning(key))), d1))
  {
    d1 := Reader(r, ObjectColon, d.stack);
    var t := StringText(key) + r;
    Assoc(ItemsText(key), [QUOTE], r);
    Assoc([QUOTE], ItemsText(key) + [QUOTE], r);
    assert t == [QUOTE] + Body(key, r) && t[1..] == Body(key, r);
    NextSkips(d, w1, w2, t);
    ReadStringComplete(key, r);
    assert SkipSpace(t) == t;
  }
}
