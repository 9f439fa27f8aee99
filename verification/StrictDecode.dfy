/** decodeStrict and the recursive descent behind it, as the code runs them, and what they
    accept (internal/contract/json.go). */
module StrictDecode {
  import opened Utf8
  import opened Values
  import opened Grammar
  import opened Lexer
  import opened Tokens
  import opened Decoder
  import opened DecoderSoundness
  import opened SurrogateScan

  /** json.Decoder: the token reader with its position. */
  class TokenDecoder {
    var reader: Reader

    constructor (data: ByteString)
      ensures reader == Reader(data, TopValue, [])
    {
      reader := Reader(data, TopValue, []);
    }

    method Token() returns (r: Result<Token>)
      modifies this
      ensures match Next(old(reader))
        case Ok((tok, d)) => r == Ok(tok) && reader == d
        case Err(e) => r == Err(e) && reader == old(reader)
    {
      match Next(reader)
      case Ok((tok, d)) => reader := d; r := Ok(tok);
      case Err(e) => r := Err(e);
    }
  }

  method DecodeValue(dec: TokenDecoder, depth: nat) returns (r: Result<Value>)
    modifies dec
    ensures match ParseValue(old(dec.reader), depth, MAX_DEPTH)
      case Ok((v, d)) => r == Ok(v) && dec.reader == d
      case Err(e) => r == Err(e)
    decreases |dec.reader.rest|, 0
  {
    var tok := dec.Token();
    if tok.Err? { return Err(tok.error); }
    if tok.value.Lit? { return Ok(tok.value.v); }
    if depth > MAX_DEPTH { return Err(TooDeep); }
    match tok.value
    case Open(isObject) =>
      if isObject { r := DecodeObject(dec, depth); } else { r := DecodeArray(dec, depth); }
    case Close(_) =>
      r := Err(UnexpectedDelimiter);
  }

  method DecodeArray(dec: TokenDecoder, depth: nat) returns (r: Result<Value>)
    modifies dec
    ensures match ParseElems(old(dec.reader), depth, MAX_DEPTH, [])
      case Ok((v, d)) => r == Ok(v) && dec.reader == d
      case Err(e) => r == Err(e)
    decreases |dec.reader.rest|, 1
  {
    var arr: seq<Value> := [];
    while More(dec.reader)
      invariant |dec.reader.rest| <= |old(dec.reader).rest|
      invariant ParseElems(old(dec.reader), depth, MAX_DEPTH, []) == ParseElems(dec.reader, depth, MAX_DEPTH, arr)
      decreases |dec.reader.rest|
    {
      var v := DecodeValue(dec, depth + 1);
      if v.Err? { return Err(v.error); }
      arr := arr + [v.value];
    }
    var tok := dec.Token();
    if tok.Err? { return Err(tok.error); }
    r := Ok(Arr(arr));
  }

  method DecodeObject(dec: TokenDecoder, depth: nat) returns (r: Result<Value>)
    modifies dec
    ensures match ParseMembers(old(dec.reader), depth, MAX_DEPTH, map[])
      case Ok((v, d)) => r == Ok(v) && dec.reader == d
      case Err(e) => r == Err(e)
    decreases |dec.reader.rest|, 1
  {
    var obj: map<Text, Value> := map[];
    while More(dec.reader)
      invariant |dec.reader.rest| <= |old(dec.reader).rest|
      invariant ParseMembers(old(dec.reader), depth, MAX_DEPTH, map[]) == ParseMembers(dec.reader, depth, MAX_DEPTH, obj)
      decreases |dec.reader.rest|
    {
      var tok := dec.Token();
      if tok.Err? { return Err(tok.error); }
      if !(tok.value.Lit? && tok.value.v.Str?) { return Err(KeyNotString); }
      var key := tok.value.v.text;
      if key in obj { return Err(DuplicateKey); }
      var v := DecodeValue(dec, depth + 1);
      if v.Err? { return Err(v.error); }
      obj := obj[key := v.value];
    }
    var tok := dec.Token();
    if tok.Err? { return Err(tok.error); }
    r := Ok(Obj(obj));
  }

  method DecodeStrict(data: ByteString) returns (r: Result<Value>)
    ensures r == Strict(data)
  {
    if !Valid(data) { return Err(InvalidUtf8); }
    var ok := RejectEscapedSurrogates(data);
    if !ok { return Err(UnpairedSurrogate); }
    var dec := new TokenDecoder(data);
    var v := DecodeValue(dec, 1);
    if v.Err? { return v; }
    var tok := dec.Token();
    if tok != Err(EndOfInput) { return Err(TrailingData); }
    r := v;
  }

  // ---- What is accepted --------------------------------------------------------------

  /** The checks of decodeStrict in their order. */
  function Strict(data: ByteString): Result<Value> {
    if !Valid(data) then Err(InvalidUtf8)
    else if !Passes(data, false) then Err(UnpairedSurrogate)
    else
      match ParseValue(Reader(data, TopValue, []), 1, MAX_DEPTH)
      case Err(e) => Err(e)
      case Ok((v, d)) => if Next(d) == Err(EndOfInput) then Ok(v) else Err(TrailingData)
  }

  /** What the parse profile admits: a JSON text of the grammar that is nested at most 64
      deep, repeats no key, and whose strings denote scalars. */
  ghost predicate Admissible(doc: Document) {
    WfDocument(doc) && CstDepth(doc.value, MAX_DEPTH) && UniqueKeys(doc.value) && ScalarOnly(doc.value)
  }

  ghost predicate Spells(doc: Document, data: ByteString, v: Value) {
    Admissible(doc) && DocumentText(doc) == data && Meaning(doc.value) == v
  }

  lemma {:induction false} ItemsValid(items: seq<Item>, r: ByteString)
    requires WfItems(items)
    ensures Valid(ItemsText(items) + r) == Valid(r)
  {
    if items == [] {
      assert ItemsText(items) + r == r;
    } else {
      Assoc(ItemText(items[0]), ItemsText(items[1..]), r);
      var rest := ItemsText(items[1..]) + r;
      ItemsValid(items[1..], r);
      if items[0].Raw? {
        ScalarPrefix(items[0].c, rest);
      } else {
        AsciiOver(ItemText(items[0]), rest);
      }
    }
  }

  lemma {:induction false} AsciiOver(p: ByteString, s: ByteString)
    requires forall i | 0 <= i < |p| :: p[i] < 0x80
    ensures Valid(p + s) == Valid(s)
  {
    if p == [] {
      assert p + s == s;
    } else {
      assert (p + s)[1..] == p[1..] + s;
      AsciiOver(p[1..], s);
    }
  }

  lemma StringValid(items: seq<Item>, r: ByteString)
    requires WfItems(items)
    ensures Valid(StringText(items) + r) == Valid(r)
  {
    Assoc([QUOTE], ItemsText(items) + [QUOTE], r);
    Assoc(ItemsText(items), [QUOTE], r);
    AsciiOver([QUOTE], ItemsText(items) + ([QUOTE] + r));
    ItemsValid(items, [QUOTE] + r);
    AsciiOver([QUOTE], r);
  }

  /** The bytes of a value of the grammar are valid UTF-8. */
  lemma {:induction false} CstValid(c: Cst, r: ByteString)
    requires Wf(c)
    ensures Valid(CstText(c) + r) == Valid(r)
    decreases c
  {
    match c
    case CString(items) => StringValid(items, r);
    case CNumber(n) => NumberAscii(n); AsciiOver(NumText(n), r);
    case CArray(es, close) =>
      ElemsValid(es, [], (close + [RBRACKET]) + r);
      BracketsValid([LBRACKET], ElemsText(es, []), close, [RBRACKET], r);
    case CObject(ms, close) =>
      MembersValid(ms, [], (close + [RBRACE]) + r);
      BracketsValid([LBRACE], MembersText(ms, []), close, [RBRACE], r);
    case _ => AsciiOver(CstText(c), r);
  }

  lemma BracketsValid(open: ByteString, body: ByteString, space: ByteString, close: ByteString, r: ByteString)
    requires |open| == |close| == 1 && open[0] < 0x80 && close[0] < 0x80 && Spaces(space)
    requires Valid(body + ((space + close) + r)) == Valid((space + close) + r)
    ensures Valid((open + (body + (space + close))) + r) == Valid(r)
  {
    var t := space + close;
    Assoc(open, body + t, r);
    Assoc(body, t, r);
    AsciiOver(open, body + (t + r));
    AsciiOver(t, r);
  }

  lemma {:induction false} ElemsValid(es: Elems, lead: ByteString, r: ByteString)
    requires WfElems(es) && forall i | 0 <= i < |lead| :: lead[i] < 0x80
    ensures Valid(ElemsText(es, lead) + r) == Valid(r)
    decreases es
  {
    match es
    case NoElem => assert ElemsText(es, lead) + r == r;
    case Elem(sep, pre, v, tail) =>
      var after := ElemsText(tail, SEPARATOR) + r;
      ElemsUnfold(es, lead, r);
      AsciiOver(sep, lead + (pre + (CstText(v) + after)));
      AsciiOver(lead, pre + (CstText(v) + after));
      AsciiOver(pre, CstText(v) + after);
      CstValid(v, after);
      ElemsValid(tail, SEPARATOR, r);
  }

  lemma {:induction false} MembersValid(ms: Members, lead: ByteString, r: ByteString)
    requires WfMembers(ms) && forall i | 0 <= i < |lead| :: lead[i] < 0x80
    ensures Valid(MembersText(ms, lead) + r) == Valid(r)
    decreases ms
  {
    match ms
    case NoMember => assert MembersText(ms, lead) + r == r;
    case Member(sep, pre, key, colon, before, v, tail) =>
      var after := MembersText(tail, SEPARATOR) + r;
      var rest := MemberTail(ms, r);
      MembersUnfold(ms, lead, r);
      AsciiOver(sep, lead + (pre + (StringText(key) + rest)));
      AsciiOver(lead, pre + (StringText(key) + rest));
      AsciiOver(pre, StringText(key) + rest);
      StringValid(key, rest);
      AsciiOver(colon, [COLON] + (before + (CstText(v) + after)));
      AsciiOver([COLON], before + (CstText(v) + after));
      AsciiOver(before, CstText(v) + after);
      CstValid(v, after);
      MembersValid(tail, SEPARATOR, r);
  }

  lemma DocumentValid(doc: Document)
    requires WfDocument(doc)
    ensures Valid(DocumentText(doc))
  {
    AsciiOver(doc.before, CstText(doc.value) + doc.after);
    CstValid(doc.value, doc.after);
    AsciiOver(doc.after, []);
    assert doc.after + [] == doc.after;
  }

  /** Every admissible document is accepted with its meaning. */
  lemma AcceptsAdmissible(doc: Document)
    requires Admissible(doc)
    ensures Strict(DocumentText(doc)) == Ok(Meaning(doc.value))
  {
    DocumentValid(doc);
    ScanIffScalarOnly(doc);
    DocumentParses(doc);
    SpaceIsEnd(doc.after, TopValue, []);
  }

  lemma DocumentParses(doc: Document)
    requires WfDocument(doc) && CstDepth(doc.value, MAX_DEPTH) && UniqueKeys(doc.value)
    ensures ParseValue(Reader(DocumentText(doc), TopValue, []), 1, MAX_DEPTH)
         == Ok((Meaning(doc.value), Reader(doc.after, TopValue, [])))
  {
    var d := Reader(DocumentText(doc), TopValue, []);
    var t := CstText(doc.value) + doc.after;
    TailEndsNumber(doc.after, []);
    assert doc.after + [] == doc.after;
    assert [] + t == t && Lead(TopValue) + t == t;
    ValueComplete(doc.value, d, doc.before, [], doc.after, 1, MAX_DEPTH);
  }

  lemma SpaceIsEnd(w: ByteString, state: State, stack: seq<State>)
    requires Spaces(w)
    ensures Next(Reader(w, state, stack)) == Err(EndOfInput)
  {
    SkipSpaceOver(w, []);
    assert w + [] == w;
  }

  lemma Around(w1: ByteString, w2: ByteString, t: ByteString)
    requires Spaces(w1) && Spaces(w2)
    ensures w1 + ([] + (w2 + t)) == (w1 + w2) + t && Spaces(w1 + w2)
  {
    NilLeft(w2 + t);
    Assoc(w1, w2, t);
  }

  /** Whatever is accepted is an admissible document. */
  lemma AcceptedIsAdmissible(data: ByteString) returns (doc: Document)
    requires Strict(data).Ok?
    ensures Spells(doc, data, Strict(data).value)
  {
    var d := Reader(data, TopValue, []);
    var c, w1, w2 := ValueSound(d, 1, MAX_DEPTH);
    var (_, d1) := ParseValue(d, 1, MAX_DEPTH).value;
    var after := LeadingSpace(d1.rest);
    EndIsSpace(d1);
    doc := Document(w1 + w2, c, d1.rest);
    assert after == d1.rest;
    Around(w1, w2, CstText(c) + d1.rest);
    ScanIffScalarOnly(doc);
  }

  lemma EndIsSpace(d: Reader)
    requires Next(d) == Err(EndOfInput) && d.state == TopValue
    ensures SkipSpace(d.rest) == []
  {
  }

  /** The strict decoder accepts exactly the admissible documents, and returns what they mean. */
  lemma StrictIffAdmissible(data: ByteString, v: Value)
    ensures Strict(data) == Ok(v) <==> exists doc :: Spells(doc, data, v)
  {
    if Strict(data) == Ok(v) {
      var doc := AcceptedIsAdmissible(data);
      assert Spells(doc, data, v);
    }
    forall doc | Spells(doc, data, v) ensures Strict(data) == Ok(v) {
      AcceptsAdmissible(doc);
    }
  }
}
