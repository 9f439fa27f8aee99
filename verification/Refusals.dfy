/** Which check of the strict decoder refuses a text, and for what in it
    (internal/contract/json.go). */
module Refusals {
  import opened Utf8
  import opened Values
  import opened Grammar
  import opened Lexer
  import opened Tokens
  import opened Decoder
  import opened DecoderSoundness
  import opened SurrogateScan
  import opened StrictDecode

  // ---- The first fault of a tree ------------------------------------------------------

  /** What a value is refused for when containers may nest n deep from it on, first in
      document order: a container too many, or a key its object has had before. */
  function Fault(c: Cst, n: int): Option<DecodeError>
    requires Wf(c)
  {
    match c
    case CArray(es, _) => if n <= 0 then Some(TooDeep) else ElemsFault(es, n - 1)
    case CObject(ms, _) => if n <= 0 then Some(TooDeep) else MembersFault(ms, n - 1, {})
    case _ => None
  }

  function ElemsFault(es: Elems, n: int): Option<DecodeError>
    requires WfElems(es)
  {
    if es.NoElem? then None
    else if Fault(es.v, n).Some? then Fault(es.v, n)
    else ElemsFault(es.tail, n)
  }

  function MembersFault(ms: Members, n: int, seen: set<Text>): Option<DecodeError>
    requires WfMembers(ms)
    decreases ms
  {
    if ms.NoMember? then None
    else if StringMeaning(ms.key) in seen then Some(DuplicateKey)
    else if Fault(ms.v, n).Some? then Fault(ms.v, n)
    else MembersFault(ms.tail, n, seen + {StringMeaning(ms.key)})
  }

  /** f is no fault, or a real one of a tree with these properties. */
  predicate Explains(f: Option<DecodeError>, unique: bool, within: bool) {
    && (f.None? <==> unique && within)
    && (f.Some? ==> f.value == DuplicateKey || f.value == TooDeep)
    && (f == Some(DuplicateKey) ==> !unique)
    && (f == Some(TooDeep) ==> !within)
  }

  lemma {:induction false} FaultExplains(c: Cst, n: int)
    requires Wf(c)
    ensures Explains(Fault(c, n), UniqueKeys(c), CstDepth(c, n))
    decreases c
  {
    match c
    case CArray(es, _) => ElemsFaultExplains(es, n - 1);
    case CObject(ms, _) => MembersFaultExplains(ms, n - 1, {});
    case _ =>
  }

  lemma {:induction false} ElemsFaultExplains(es: Elems, n: int)
    requires WfElems(es)
    ensures Explains(ElemsFault(es, n), ElemsUnique(es), ElemsDepth(es, n))
    decreases es
  {
    if es.Elem? {
      FaultExplains(es.v, n);
      ElemsFaultExplains(es.tail, n);
    }
  }

  lemma {:induction false} MembersFaultExplains(ms: Members, n: int, seen: set<Text>)
    requires WfMembers(ms)
    ensures Explains(MembersFault(ms, n, seen), MembersUnique(ms, seen), MembersDepth(ms, n))
    decreases ms
  {
    if ms.Member? {
      FaultExplains(ms.v, n);
      MembersFaultExplains(ms.tail, n, seen + {StringMeaning(ms.key)});
    }
  }

  // ---- The decoder stops at it --------------------------------------------------------

  lemma {:induction false} ValueRefused(c: Cst, d: Reader, w1: ByteString, w2: ByteString, r: ByteString, depth: nat, cap: nat)
    requires Wf(c) && Fault(c, cap - depth + 1).Some?
    requires AtValue(d.state) && Spaces(w1) && Spaces(w2) && EndsNumber(r)
    requires d.rest == w1 + (Lead(d.state) + (w2 + (CstText(c) + r)))
    ensures ParseValue(d, depth, cap) == Err(Fault(c, cap - depth + 1).value)
    ensures More(d)
    decreases c, 0
  {
    ValueToken(c, d, w1, w2, r);
    var d1 := FirstToken(c, d, r).1;
    if depth <= cap {
      match c
      case CArray(es, close) =>
        ElemsRefused(es, d1, [], close, r, depth, cap, []);
      case CObject(ms, close) =>
        var none: map<Text, Value> := map[];
        assert none.Keys == {};
        MembersRefused(ms, d1, [], close, r, depth, cap, none);
    }
  }

  /** What reading a value of the grammar comes to. */
  lemma {:induction false} ValueRead(c: Cst, d: Reader, w1: ByteString, w2: ByteString, r: ByteString, depth: nat, cap: nat)
    requires Wf(c) && AtValue(d.state) && Spaces(w1) && Spaces(w2) && EndsNumber(r)
    requires d.rest == w1 + (Lead(d.state) + (w2 + (CstText(c) + r)))
    ensures More(d)
    ensures ParseValue(d, depth, cap) == match Fault(c, cap - depth + 1)
      case Some(e) => Err(e)
      case None => Ok((Meaning(c), Reader(r, After(d.state), d.stack)))
    decreases c, 1
  {
    FaultExplains(c, cap - depth + 1);
    if Fault(c, cap - depth + 1).Some? {
      ValueRefused(c, d, w1, w2, r, depth, cap);
    } else {
      ValueComplete(c, d, w1, w2, r, depth, cap);
    }
  }

  lemma {:induction false} ElemsRefused(es: Elems, d: Reader, lead: ByteString, close: ByteString,
        r: ByteString, depth: nat, cap: nat, acc: seq<Value>)
    requires WfElems(es) && ElemsFault(es, cap - depth).Some? && Spaces(close)
    requires (d.state.ArrayStart? || d.state.ArrayComma?) && d.stack != []
    requires lead == Lead(d.state) && d.rest == ElemsText(es, lead) + (close + ([RBRACKET] + r))
    ensures ParseElems(d, depth, cap, acc) == Err(ElemsFault(es, cap - depth).value)
    decreases es
  {
    var t := close + ([RBRACKET] + r);
    var r1 := ElemsText(es.tail, SEPARATOR) + t;
    ElemsUnfold(es, lead, t);
    ElemsEndNumber(es.tail, close, r);
    ValueRead(es.v, d, es.sep, es.pre, r1, depth + 1, cap);
    if Fault(es.v, cap - depth).None? {
      ElemsRefused(es.tail, Reader(r1, ArrayComma, d.stack), SEPARATOR, close, r, depth, cap, acc + [Meaning(es.v)]);
    }
  }

  lemma {:induction false} MembersRefused(ms: Members, d: Reader, lead: ByteString, close: ByteString,
        r: ByteString, depth: nat, cap: nat, acc: map<Text, Value>)
    requires WfMembers(ms) && MembersFault(ms, cap - depth, acc.Keys).Some? && Spaces(close)
    requires (d.state.ObjectStart? || d.state.ObjectComma?) && d.stack != []
    requires lead == Lead(d.state) && d.rest == MembersText(ms, lead) + (close + ([RBRACE] + r))
    ensures ParseMembers(d, depth, cap, acc) == Err(MembersFault(ms, cap - depth, acc.Keys).value)
    decreases ms, 1
  {
    var d1 := MemberRead(ms, d, lead, close, r, depth, cap);
    var k := StringMeaning(ms.key);
    if k in acc || Fault(ms.v, cap - depth).Some? {
      MemberStops(d, d1, depth, cap, acc, k);
    } else {
      var t := close + ([RBRACE] + r);
      var d2 := Reader(MembersText(ms.tail, SEPARATOR) + t, ObjectComma, d.stack);
      MembersStep(d, d1, d2, depth, cap, acc, k, Meaning(ms.v));
      KeyAdded(acc, k, Meaning(ms.v));
      MembersRefused(ms.tail, d2, SEPARATOR, close, r, depth, cap, acc[k := Meaning(ms.v)]);
    }
  }

  /** What reading the first member comes to: its key, and then its value or its fault. */
  lemma {:induction false} MemberRead(ms: Members, d: Reader, lead: ByteString, close: ByteString,
        r: ByteString, depth: nat, cap: nat) returns (d1: Reader)
    requires WfMembers(ms) && ms.Member? && Spaces(close)
    requires (d.state.ObjectStart? || d.state.ObjectComma?)
    requires lead == Lead(d.state) && d.rest == MembersText(ms, lead) + (close + ([RBRACE] + r))
    ensures More(d) && Next(d) == Ok((Lit(Str(StringMeaning(ms.key))), d1))
    ensures ParseValue(d1, depth + 1, cap) == match Fault(ms.v, cap - depth)
      case Some(e) => Err(e)
      case None => Ok((Meaning(ms.v), Reader(MembersText(ms.tail, SEPARATOR) + (close + ([RBRACE] + r)), ObjectComma, d.stack)))
    decreases ms, 0
  {
    var t := close + ([RBRACE] + r);
    d1 := Reader(MemberTail(ms, t), ObjectColon, d.stack);
    MemberKeyComplete(ms, d, t, d1);
    MembersEndNumber(ms.tail, close, r);
    ValueRead(ms.v, d1, ms.colon, ms.before, MembersText(ms.tail, SEPARATOR) + t, depth + 1, cap);
  }

  lemma MemberStops(d: Reader, d1: Reader, depth: nat, cap: nat, acc: map<Text, Value>, k: Text)
    requires More(d) && Next(d) == Ok((Lit(Str(k)), d1))
    requires k in acc || ParseValue(d1, depth + 1, cap).Err?
    ensures ParseMembers(d, depth, cap, acc)
         == Err(if k in acc then DuplicateKey else ParseValue(d1, depth + 1, cap).error)
  {
  }

  lemma KeyAdded(acc: map<Text, Value>, k: Text, v: Value)
    ensures acc.Keys + {k} == acc[k := v].Keys
  {
  }

  // ---- What each refusal means --------------------------------------------------------

  /** A JSON text is refused for a surrogate exactly when a string in it denotes an unpaired
      one, and otherwise for the first container too many or repeated key in it. */
  lemma RefusedForFault(doc: Document)
    requires WfDocument(doc)
    ensures Strict(DocumentText(doc)) ==
      if !ScalarOnly(doc.value) then Err(UnpairedSurrogate)
      else if Fault(doc.value, 64).Some? then Err(Fault(doc.value, 64).value)
      else Ok(Meaning(doc.value))
  {
    DocumentValid(doc);
    ScanIffScalarOnly(doc);
    FaultExplains(doc.value, 64);
    if Fault(doc.value, 64).None? {
      if ScalarOnly(doc.value) { AcceptsAdmissible(doc); }
    } else {
      var d := Reader(DocumentText(doc), TopValue, []);
      var t := CstText(doc.value) + doc.after;
      TailEndsNumber(doc.after, []);
      assert doc.after + [] == doc.after;
      assert [] + t == t && Lead(TopValue) + t == t;
      ValueRefused(doc.value, d, doc.before, [], doc.after, 1, MAX_DEPTH);
    }
  }

  /** So with one kind of fault the refusal names it, and with both it names one of them. */
  lemma RefusalNamesTheFault(doc: Document)
    requires WfDocument(doc) && ScalarOnly(doc.value)
    ensures Strict(DocumentText(doc)) == Err(DuplicateKey) ==> !UniqueKeys(doc.value)
    ensures Strict(DocumentText(doc)) == Err(TooDeep) ==> !CstDepth(doc.value, 64)
    ensures !UniqueKeys(doc.value) && CstDepth(doc.value, 64) ==> Strict(DocumentText(doc)) == Err(DuplicateKey)
    ensures UniqueKeys(doc.value) && !CstDepth(doc.value, 64) ==> Strict(DocumentText(doc)) == Err(TooDeep)
    ensures !UniqueKeys(doc.value) && !CstDepth(doc.value, 64) ==>
      Strict(DocumentText(doc)) == Err(DuplicateKey) || Strict(DocumentText(doc)) == Err(TooDeep)
  {
    RefusedForFault(doc);
    FaultExplains(doc.value, 64);
  }

  /** The refusals of the checks around the descent are not made inside it. */
  predicate OfDescent(e: DecodeError) { !e.InvalidUtf8? && !e.UnpairedSurrogate? && !e.TrailingData? }

  lemma {:induction false} TokenRefuses(d: Reader)
    requires Next(d).Err?
    ensures OfDescent(Next(d).error)
    decreases |d.rest|
  {
    var s := SkipSpace(d.rest);
    if s != [] && (s[0] == COLON || s[0] == COMMA) {
      var state := if s[0] == COLON then ObjectValue else if d.state.ArrayComma? then ArrayValue else ObjectKey;
      if Next(Reader(s[1..], state, d.stack)).Err? { TokenRefuses(Reader(s[1..], state, d.stack)); }
    }
  }

  lemma {:induction false} DescentRefuses(d: Reader, depth: nat, cap: nat)
    requires ParseValue(d, depth, cap).Err?
    ensures OfDescent(ParseValue(d, depth, cap).error)
    decreases |d.rest|, 0
  {
    match Next(d)
    case Err(_) => TokenRefuses(d);
    case Ok((tok, d1)) =>
      if tok.Open? && depth <= cap {
        if tok.isObject { MembersRefuse(d1, depth, cap, map[]); } else { ElemsRefuse(d1, depth, cap, []); }
      }
  }

  lemma {:induction false} ElemsRefuse(d: Reader, depth: nat, cap: nat, acc: seq<Value>)
    requires ParseElems(d, depth, cap, acc).Err?
    ensures OfDescent(ParseElems(d, depth, cap, acc).error)
    decreases |d.rest|, 1
  {
    if More(d) {
      match ParseValue(d, depth + 1, cap)
      case Err(_) => DescentRefuses(d, depth + 1, cap);
      case Ok((v, d1)) => ElemsRefuse(d1, depth, cap, acc + [v]);
    } else {
      TokenRefuses(d);
    }
  }

  lemma {:induction false} MembersRefuse(d: Reader, depth: nat, cap: nat, acc: map<Text, Value>)
    requires ParseMembers(d, depth, cap, acc).Err?
    ensures OfDescent(ParseMembers(d, depth, cap, acc).error)
    decreases |d.rest|, 1
  {
    match Next(d)
    case Err(_) => TokenRefuses(d);
    case Ok((tok, d1)) =>
      if tok.Lit? && tok.v.Str? && tok.v.text !in acc {
        match ParseValue(d1, depth + 1, cap)
        case Err(_) => DescentRefuses(d1, depth + 1, cap);
        case Ok((v, d2)) => MembersRefuse(d2, depth, cap, acc[tok.v.text := v]);
      }
  }

  /** Bytes are refused as no UTF-8 exactly when they encode no characters. */
  lemma RefusedAsBytes(data: ByteString)
    ensures Strict(data) == Err(InvalidUtf8) <==> forall cs: Text :: Utf8.Encode(cs) != data
  {
    ValidIsEncoded(data);
    var d := Reader(data, TopValue, []);
    if Valid(data) {
      assert Utf8.Encode(Utf8.Decode(data)) == data;
      if ParseValue(d, 1, MAX_DEPTH).Err? { DescentRefuses(d, 1, MAX_DEPTH); }
    } else {
      forall cs: Text ensures Utf8.Encode(cs) != data { Utf8.DecodeInvertsEncode(cs); }
    }
  }

  /** data is a value that would be accepted alone, with more than white space after it. */
  ghost predicate Trails(data: ByteString, before: ByteString, c: Cst, after: ByteString) {
    && data == before + (CstText(c) + after) && Spaces(before)
    && Wf(c) && UniqueKeys(c) && CstDepth(c, 64) && !Spaces(after)
  }

  /** A text is refused for trailing data only if there is some after an admissible value. */
  lemma RefusedForTrailing(data: ByteString)
    requires Strict(data) == Err(TrailingData)
    ensures exists before, c, after :: Trails(data, before, c, after)
  {
    var d := Reader(data, TopValue, []);
    if ParseValue(d, 1, MAX_DEPTH).Err? { DescentRefuses(d, 1, MAX_DEPTH); }
    var c, w1, w2 := ValueSound(d, 1, MAX_DEPTH);
    var (_, d1) := ParseValue(d, 1, MAX_DEPTH).value;
    if Spaces(d1.rest) { SpaceIsEnd(d1.rest, d1.state, d1.stack); }
    Around(w1, w2, CstText(c) + d1.rest);
    assert Trails(data, w1 + w2, c, d1.rest);
  }

  /** And it always is if what follows does not go on with a number and the text passes the
      checks made on its bytes. */
  lemma TrailingIsRefused(data: ByteString, before: ByteString, c: Cst, after: ByteString)
    requires Trails(data, before, c, after) && EndsNumber(after)
    requires Valid(data) && Passes(data, false)
    ensures Strict(data) == Err(TrailingData)
  {
    var d := Reader(data, TopValue, []);
    var t := CstText(c) + after;
    assert [] + t == t && Lead(TopValue) + t == t;
    ValueComplete(c, d, before, [], after, 1, MAX_DEPTH);
    NotAllSpace(after);
  }

  lemma NotAllSpace(s: ByteString)
    requires !Spaces(s)
    ensures Next(Reader(s, TopValue, [])) != Err(EndOfInput)
  {
    if SkipSpace(s) == [] { assert s == LeadingSpace(s) + SkipSpace(s); }
  }
}
