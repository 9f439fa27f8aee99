/** The converse of Decoder's completeness: whatever the decoder accepts is a text of the
    grammar with the meaning it returned. */
module DecoderSoundness {
  import opened Utf8
  import opened Values
  import opened Grammar
  import opened Lexer
  import opened Tokens
  import opened Decoder

  lemma {:induction false} ValidAfterAscii(p: ByteString, s: ByteString)
    requires Valid(p + s) && forall i | 0 <= i < |p| :: p[i] < 0x80
    ensures Valid(s)
  {
    AsciiPrefix(p + s, |p|);
    Drop(p, s);
  }

  lemma ValidAtToken(s: ByteString, w1: ByteString, lead: ByteString, w2: ByteString, t: ByteString)
    requires Valid(s) && s == w1 + (lead + (w2 + t)) && Spaces(w1) && Spaces(w2)
    requires forall i | 0 <= i < |lead| :: lead[i] < 0x80
    ensures Valid(t)
  {
    ValidAfterAscii(w1, lead + (w2 + t));
    ValidAfterAscii(lead, w2 + t);
    ValidAfterAscii(w2, t);
  }

  /** A scalar value that was read is a scalar of the grammar. */
  lemma LiteralSound(t: ByteString) returns (c: Cst)
    requires t != [] && Valid(t) && ReadLiteral(t).Some?
    ensures Wf(c) && !c.CArray? && !c.CObject?
    ensures ReadLiteral(t).value.0 == Meaning(c) && t == CstText(c) + ReadLiteral(t).value.1
    ensures Valid(ReadLiteral(t).value.1)
  {
    var r := ReadLiteral(t).value.1;
    if t[0] == QUOTE {
      AsciiPrefix(t, 1);
      var items := StringSound(t, r);
      c := CString(items);
    } else if NULL <= t {
      c := CNull;
      AsciiPrefix(t, 4);
    } else if TRUE <= t {
      c := CBool(true);
      AsciiPrefix(t, 4);
    } else if FALSE <= t {
      c := CBool(false);
      AsciiPrefix(t, 5);
    } else {
      var n := ReadNumberSound(t);
      c := CNumber(n);
      NumberAscii(n);
      ValidAfterAscii(NumText(n), r);
      assert t[..|t| - |r|] == NumText(n);
    }
  }

  lemma NumberAscii(n: Num)
    requires WfNum(n)
    ensures forall i | 0 <= i < |NumText(n)| :: NumText(n)[i] < 0x80
  {
    assert forall i | 0 <= i < |ExpText(n.exp)| :: ExpText(n.exp)[i] < 0x80;
    assert forall i | 0 <= i < |FracText(n.frac)| :: FracText(n.frac)[i] < 0x80;
  }

  lemma StringSound(t: ByteString, r: ByteString) returns (items: seq<Item>)
    requires t != [] && t[0] == QUOTE && Valid(t[1..]) && ReadString(t[1..]).Some? && r == ReadString(t[1..]).value.1
    ensures WfItems(items) && t == StringText(items) + r && Valid(r)
    ensures ReadString(t[1..]).value.0 == StringMeaning(items)
  {
    items := ReadStringSound(t[1..]);
    ReadStringComplete(items, r);
    Assoc(ItemsText(items), [QUOTE], r);
    Assoc([QUOTE], ItemsText(items) + [QUOTE], r);
    assert t == [QUOTE] + t[1..];
  }

  lemma {:induction false} ValueSound(d: Reader, depth: nat, cap: nat) returns (c: Cst, w1: ByteString, w2: ByteString)
    requires Valid(d.rest) && AtValue(d.state) && ParseValue(d, depth, cap).Ok?
    ensures Wf(c) && UniqueKeys(c) && CstDepth(c, cap - depth + 1) && Spaces(w1) && Spaces(w2)
    ensures var (v, d1) := ParseValue(d, depth, cap).value;
      && v == Meaning(c) && d1 == Reader(d1.rest, After(d.state), d.stack) && Valid(d1.rest)
      && d.rest == w1 + (Lead(d.state) + (w2 + (CstText(c) + d1.rest)))
    decreases |d.rest|, 1
  {
    var t;
    w1, w2, t := NextSplits(d);
    ValidAtToken(d.rest, w1, Lead(d.state), w2, t);
    var at := Reader(t, Mid(d.state), d.stack);
    ParseSame(d, at, depth, cap);
    c := TokenSound(at, depth, cap);
  }

  /** The same right at the first token of the value. */
  lemma {:induction false} TokenSound(d: Reader, depth: nat, cap: nat) returns (c: Cst)
    requires StartsToken(d.rest) && d.rest[0] != RBRACKET && d.rest[0] != RBRACE && Valid(d.rest)
    requires ValueAllowed(d.state) && ParseValue(d, depth, cap).Ok?
    ensures Wf(c) && UniqueKeys(c) && CstDepth(c, cap - depth + 1)
    ensures var (v, d1) := ParseValue(d, depth, cap).value;
      && v == Meaning(c) && d1 == Reader(d1.rest, ValueEnd(d.state), d.stack) && Valid(d1.rest)
      && d.rest == CstText(c) + d1.rest
    decreases |d.rest|, 0
  {
    ParseAt(d, depth, cap);
    if d.rest[0] == LBRACKET || d.rest[0] == LBRACE {
      AsciiPrefix(d.rest, 1);
      c := ContainerSound(d.rest, Entered(d), depth, cap);
    } else {
      c := LiteralSound(d.rest);
    }
  }

  lemma ParseSame(d: Reader, at: Reader, depth: nat, cap: nat)
    requires Next(d) == Next(at)
    ensures ParseValue(d, depth, cap) == ParseValue(at, depth, cap)
  {
  }

  /** The reader inside the container that opens at d. */
  function Entered(d: Reader): Reader
    requires d.rest != []
  {
    Reader(d.rest[1..], if d.rest[0] == LBRACE then ObjectStart else ArrayStart, d.stack + [d.state])
  }

  lemma ParseAt(d: Reader, depth: nat, cap: nat)
    requires StartsToken(d.rest) && d.rest[0] != RBRACKET && d.rest[0] != RBRACE
    requires ValueAllowed(d.state) && ParseValue(d, depth, cap).Ok?
    ensures if d.rest[0] == LBRACE then
        depth <= cap && ParseValue(d, depth, cap) == ParseMembers(Entered(d), depth, cap, map[])
      else if d.rest[0] == LBRACKET then
        depth <= cap && ParseValue(d, depth, cap) == ParseElems(Entered(d), depth, cap, [])
      else
        var r := ReadLiteral(d.rest);
        r.Some? && ParseValue(d, depth, cap) == Ok((r.value.0, Reader(r.value.1, ValueEnd(d.state), d.stack)))
  {
    assert SkipSpace(d.rest) == d.rest;
  }

  lemma {:induction false} ContainerSound(t: ByteString, d: Reader, depth: nat, cap: nat) returns (c: Cst)
    requires t != [] && d.rest == t[1..] && Valid(d.rest) && d.stack != [] && depth <= cap
    requires if t[0] == LBRACE then d.state == ObjectStart && ParseMembers(d, depth, cap, map[]).Ok?
             else t[0] == LBRACKET && d.state == ArrayStart && ParseElems(d, depth, cap, []).Ok?
    ensures Wf(c) && UniqueKeys(c) && CstDepth(c, cap - depth + 1)
    ensures var (v, d1) := (if t[0] == LBRACE then ParseMembers(d, depth, cap, map[]) else ParseElems(d, depth, cap, [])).value;
      && v == Meaning(c) && t == CstText(c) + d1.rest && Valid(d1.rest)
      && d1 == Popped(d, d1.rest)
    decreases |d.rest|, 4
  {
    assert t == [t[0]] + d.rest;
    if t[0] == LBRACE {
      var none: map<Text, Value> := map[];
      assert none.Keys == {};
      var ms, close := MembersSound(d, depth, cap, none);
      c := CObject(ms, close);
      var r := ParseMembers(d, depth, cap, none).value.1.rest;
      Assoc(close, [RBRACE], r);
      Assoc(MembersText(ms, []), close + [RBRACE], r);
      Assoc([LBRACE], MembersText(ms, []) + (close + [RBRACE]), r);
    } else {
      var es, close := ElemsSound(d, depth, cap, []);
      c := CArray(es, close);
      var r := ParseElems(d, depth, cap, []).value.1.rest;
      assert [] + ElemsMeaning(es) == ElemsMeaning(es);
      Assoc(close, [RBRACKET], r);
      Assoc(ElemsText(es, []), close + [RBRACKET], r);
      Assoc([LBRACKET], ElemsText(es, []) + (close + [RBRACKET]), r);
    }
  }

  lemma CloseStarts(d: Reader, isObject: bool)
    requires !More(d) && Next(d).Ok?
    requires if isObject then d.state.ObjectStart? || d.state.ObjectComma? else d.state.ArrayStart? || d.state.ArrayComma?
    ensures SkipSpace(d.rest) != [] && SkipSpace(d.rest)[0] == if isObject then RBRACE else RBRACKET
  {
  }

  /** The end of a container that was read. */
  lemma CloseSound(d: Reader, isObject: bool) returns (close: ByteString)
    requires Valid(d.rest) && !More(d) && Next(d).Ok? && d.stack != []
    requires if isObject then d.state.ObjectStart? || d.state.ObjectComma? else d.state.ArrayStart? || d.state.ArrayComma?
    ensures Spaces(close)
    ensures var d1 := Next(d).value.1;
      && d.rest == close + ([if isObject then RBRACE else RBRACKET] + d1.rest) && Valid(d1.rest)
      && d1 == Popped(d, d1.rest)
  {
    close := LeadingSpace(d.rest);
    CloseStarts(d, isObject);
    CloseAt(d, close, isObject, SkipSpace(d.rest));
  }

  lemma CloseAt(d: Reader, close: ByteString, isObject: bool, s: ByteString)
    requires Valid(d.rest) && d.stack != [] && Spaces(close) && d.rest == close + s
    requires if isObject then d.state.ObjectStart? || d.state.ObjectComma? else d.state.ArrayStart? || d.state.ArrayComma?
    requires s != [] && s[0] == if isObject then RBRACE else RBRACKET
    ensures s == [if isObject then RBRACE else RBRACKET] + s[1..] && Valid(s[1..])
    ensures Next(d) == Ok((Close(isObject), Popped(d, s[1..])))
  {
    ValidAfterAscii(close, s);
    AsciiPrefix(s, 1);
    assert s == [if isObject then RBRACE else RBRACKET] + s[1..];
    NextClose(d, close, isObject, s[1..]);
  }

  lemma {:induction false} ElemsSound(d: Reader, depth: nat, cap: nat, acc: seq<Value>) returns (es: Elems, close: ByteString)
    requires Valid(d.rest) && (d.state.ArrayStart? || d.state.ArrayComma?) && d.stack != []
    requires ParseElems(d, depth, cap, acc).Ok?
    ensures WfElems(es) && ElemsUnique(es) && ElemsDepth(es, cap - depth) && Spaces(close)
    ensures var (v, d1) := ParseElems(d, depth, cap, acc).value;
      && v == Arr(acc + ElemsMeaning(es)) && Valid(d1.rest)
      && d1 == Popped(d, d1.rest)
      && d.rest == ElemsText(es, Lead(d.state)) + (close + ([RBRACKET] + d1.rest))
    decreases |d.rest|, 2
  {
    if More(d) {
      var (v, d1) := ParseValue(d, depth + 1, cap).value;
      var c, w1, w2 := ValueSound(d, depth + 1, cap);
      var tail;
      tail, close := ElemsSound(d1, depth, cap, acc + [v]);
      es := Elem(w1, w2, c, tail);
      ElemsAdvance(es, acc);
      var t := close + ([RBRACKET] + ParseElems(d1, depth, cap, acc + [v]).value.1.rest);
      assert d1.rest == ElemsText(tail, SEPARATOR) + t;
      ElemsUnfold(es, Lead(d.state), t);
    } else {
      es := NoElem;
      close := CloseSound(d, false);
      ElemsAdvance(es, acc);
      NilLeft(close + ([RBRACKET] + Next(d).value.1.rest));
    }
  }

  /** A key that was read. */
  lemma KeySound(d: Reader) returns (w1: ByteString, w2: ByteString, key: seq<Item>)
    requires Valid(d.rest) && (d.state.ObjectStart? || d.state.ObjectComma?) && More(d) && Next(d).Ok?
    requires Next(d).value.0.Lit? && Next(d).value.0.v.Str?
    ensures WfItems(key) && Spaces(w1) && Spaces(w2)
    ensures var (tok, d1) := Next(d).value;
      && tok.v.text == StringMeaning(key) && d1 == Reader(d1.rest, ObjectColon, d.stack) && Valid(d1.rest)
      && d.rest == w1 + (Lead(d.state) + (w2 + (StringText(key) + d1.rest)))
  {
    var t;
    w1, w2, t := NextSplits(d);
    ValidAtToken(d.rest, w1, Lead(d.state), w2, t);
    KeyAt(Reader(t, Mid(d.state), d.stack));
    AsciiPrefix(t, 1);
    key := StringSound(t, ReadString(t[1..]).value.1);
  }

  lemma KeyAt(d: Reader)
    requires StartsToken(d.rest) && d.rest[0] != RBRACKET && d.rest[0] != RBRACE
    requires (d.state.ObjectStart? || d.state.ObjectKey?) && Next(d).Ok?
    ensures d.rest[0] == QUOTE && ReadString(d.rest[1..]).Some?
    ensures var (text, rest) := ReadString(d.rest[1..]).value;
      Next(d) == Ok((Lit(Str(text)), Reader(rest, ObjectColon, d.stack)))
  {
    assert SkipSpace(d.rest) == d.rest;
  }

  /** One member that was read. */
  lemma {:induction false} MemberSound(d: Reader, depth: nat, cap: nat, acc: map<Text, Value>)
    returns (w1: ByteString, w2: ByteString, key: seq<Item>, w3: ByteString, w4: ByteString, c: Cst, d2: Reader)
    requires Valid(d.rest) && (d.state.ObjectStart? || d.state.ObjectComma?) && d.stack != []
    requires More(d) && ParseMembers(d, depth, cap, acc).Ok?
    ensures Spaces(w1) && Spaces(w2) && WfItems(key) && Spaces(w3) && Spaces(w4) && Wf(c)
    ensures UniqueKeys(c) && CstDepth(c, cap - depth) && StringMeaning(key) !in acc
    ensures ParseMembers(d, depth, cap, acc) == ParseMembers(d2, depth, cap, acc[StringMeaning(key) := Meaning(c)])
    ensures d2.state == ObjectComma && d2.stack == d.stack && Valid(d2.rest) && |d2.rest| < |d.rest|
    ensures d.rest == w1 + (Lead(d.state) + (w2 + (StringText(key) + (w3 + ([COLON] + (w4 + (CstText(c) + d2.rest)))))))
    decreases |d.rest|, 2
  {
    var k, d1, v;
    k, d1, v, d2 := MemberParsed(d, depth, cap, acc);
    w1, w2, key := KeySound(d);
    c, w3, w4 := MemberValueSound(d1, depth, cap);
  }

  /** The value of a member, from the colon on. */
  lemma {:induction false} MemberValueSound(d: Reader, depth: nat, cap: nat) returns (c: Cst, w3: ByteString, w4: ByteString)
    requires Valid(d.rest) && d.state == ObjectColon && ParseValue(d, depth + 1, cap).Ok?
    ensures Wf(c) && UniqueKeys(c) && CstDepth(c, cap - depth) && Spaces(w3) && Spaces(w4)
    ensures var (v, d1) := ParseValue(d, depth + 1, cap).value;
      && v == Meaning(c) && d1.state == ObjectComma && d1.stack == d.stack && Valid(d1.rest)
      && d.rest == w3 + ([COLON] + (w4 + (CstText(c) + d1.rest)))
    decreases |d.rest|, 2
  {
    c, w3, w4 := ValueSound(d, depth + 1, cap);
  }

  /** What reading a member went through. */
  lemma MemberParsed(d: Reader, depth: nat, cap: nat, acc: map<Text, Value>)
    returns (k: Text, d1: Reader, v: Value, d2: Reader)
    requires (d.state.ObjectStart? || d.state.ObjectComma?) && More(d) && ParseMembers(d, depth, cap, acc).Ok?
    ensures Next(d) == Ok((Lit(Str(k)), d1)) && k !in acc && |d1.rest| < |d.rest|
    ensures ParseValue(d1, depth + 1, cap) == Ok((v, d2)) && |d2.rest| < |d1.rest|
    ensures ParseMembers(d, depth, cap, acc) == ParseMembers(d2, depth, cap, acc[k := v])
  {
    d1 := Next(d).value.1;
    k := Next(d).value.0.v.text;
    v, d2 := ParseValue(d1, depth + 1, cap).value.0, ParseValue(d1, depth + 1, cap).value.1;
    MembersStep(d, d1, d2, depth, cap, acc, k, v);
  }

  lemma MemberAdded(ms: Members, acc: map<Text, Value>, cap: int)
    requires ms.Member? && WfMembers(ms) && StringMeaning(ms.key) !in acc
    requires UniqueKeys(ms.v) && CstDepth(ms.v, cap) && MembersDepth(ms.tail, cap)
    requires MembersUnique(ms.tail, acc[StringMeaning(ms.key) := Meaning(ms.v)].Keys)
    ensures MembersUnique(ms, acc.Keys) && MembersDepth(ms, cap)
    ensures MembersMeaning(ms, acc) == MembersMeaning(ms.tail, acc[StringMeaning(ms.key) := Meaning(ms.v)])
  {
    assert acc.Keys + {StringMeaning(ms.key)} == acc[StringMeaning(ms.key) := Meaning(ms.v)].Keys;
  }

  lemma MembersGlue(ms: Members, lead: ByteString, s: ByteString, after: ByteString, t: ByteString)
    requires ms.Member? && after == MembersText(ms.tail, SEPARATOR) + t
    requires s == ms.sep + (lead + (ms.pre + (StringText(ms.key) + (ms.colon + ([COLON] + (ms.before + (CstText(ms.v) + after)))))))
    ensures s == MembersText(ms, lead) + t
  {
    MembersUnfold(ms, lead, t);
  }

  lemma {:induction false} MembersSound(d: Reader, depth: nat, cap: nat, acc: map<Text,
        Value>) returns (ms: Members, close: ByteString)
    requires Valid(d.rest) && (d.state.ObjectStart? || d.state.ObjectComma?) && d.stack != []
    requires ParseMembers(d, depth, cap, acc).Ok?
    ensures WfMembers(ms) && MembersUnique(ms, acc.Keys) && MembersDepth(ms, cap - depth) && Spaces(close)
    ensures var (v, d1) := ParseMembers(d, depth, cap, acc).value;
      && v == Obj(MembersMeaning(ms, acc)) && Valid(d1.rest)
      && d1 == Popped(d, d1.rest)
      && d.rest == MembersText(ms, Lead(d.state)) + (close + ([RBRACE] + d1.rest))
    decreases |d.rest|, 3
  {
    if More(d) {
      var w1, w2, key, w3, w4, c, d2 := MemberSound(d, depth, cap, acc);
      var acc1 := acc[StringMeaning(key) := Meaning(c)];
      var tail;
      tail, close := MembersSound(d2, depth, cap, acc1);
      ms := Member(w1, w2, key, w3, w4, c, tail);
      var t := close + ([RBRACE] + ParseMembers(d2, depth, cap, acc1).value.1.rest);
      MemberAdded(ms, acc, cap - depth);
      MembersGlue(ms, Lead(d.state), d.rest, d2.rest, t);
    } else {
      ms := NoMember;
      close := CloseSound(d, true);
      NilLeft(close + ([RBRACE] + Next(d).value.1.rest));
    }
  }
}
