/** Canonical bytes never frame as two lines: the checks of Append (internal/spool/writer.go)
    and why canonical forms always pass them. */
module LineSafety {
  import opened Utf8
  import opened Values
  import opened Grammar
  import opened Canonical
  import opened RoundTrip
  import opened StrictDecode

  /** LF, CR, NEXT LINE and the two Unicode separators. */
  predicate IsLineBreak(c: int) {
    c == 0x0A || c == 0x0D || c == 0x85 || c == 0x2028 || c == 0x2029
  }

  /** The characters, as the code writes them. */
  lemma LineBreakTable(c: int)
    ensures IsLineBreak(c) <==>
      c == '\n' as int || c == '\r' as int || c == '\U{0085}' as int || c == '\U{2028}' as int || c == '\U{2029}' as int
  {
  }

  /** bytes.Contains. */
  predicate Contains(s: ByteString, sub: ByteString) {
    exists i :: 0 <= i <= |s| && sub <= s[i..]
  }

  /** A record Append accepts: not empty, and no line break anywhere in its bytes. */
  ghost predicate Framable(record: ByteString) {
    record != [] && forall c: Scalar | IsLineBreak(c) :: !Contains(record, EncodeScalar(c))
  }

  lemma FramableNoLF(r: ByteString)
    requires Framable(r)
    ensures LF !in r
  {
    forall i | 0 <= i < |r| ensures r[i] != LF {
      assert r[i] == LF ==> EncodeScalar(LF) <= r[i..];
      assert !Contains(r, EncodeScalar(LF));
    }
  }

  /** The encoding of a text without line breaks. */
  ghost predicate Clean(s: ByteString) {
    Encode(Decode(s)) == s && forall i | 0 <= i < |Decode(s)| :: !IsLineBreak(Decode(s)[i])
  }

  lemma CleanText(cs: Text)
    requires forall i | 0 <= i < |cs| :: !IsLineBreak(cs[i])
    ensures Clean(Encode(cs))
  {
    DecodeInvertsEncode(cs);
  }

  lemma CleanConcat(a: ByteString, b: ByteString)
    requires Clean(a) && Clean(b)
    ensures Clean(a + b)
  {
    EncodeConcat(Decode(a), Decode(b));
    CleanText(Decode(a) + Decode(b));
  }

  lemma {:induction false} CleanAscii(s: ByteString)
    requires forall i | 0 <= i < |s| :: s[i] < 0x80 && !IsLineBreak(s[i])
    ensures Clean(s)
  {
    if s != [] {
      CleanAscii(s[1..]);
      CleanText([s[0]]);
      assert Encode([s[0]]) == [s[0]];
      CleanConcat([s[0]], s[1..]);
      assert s == [s[0]] + s[1..];
    }
  }

  /** No line break occurs in clean bytes, at character boundaries or across them. */
  lemma CleanHasNoBreak(s: ByteString)
    requires Clean(s)
    ensures forall c: Scalar | IsLineBreak(c) :: !Contains(s, EncodeScalar(c))
  {
    forall c: Scalar | IsLineBreak(c) ensures !Contains(s, EncodeScalar(c)) {
      if Contains(s, EncodeScalar(c)) {
        var i :| 0 <= i <= |s| && EncodeScalar(c) <= s[i..];
        Synchronized(Decode(s), c, i);
      }
    }
  }

  lemma CleanEscape(c: Scalar)
    ensures Clean(Escape(c))
  {
    if c == QUOTE || c == BACKSLASH || ShortLetter(c) != 0 || c < 0x20 || IsSeparator(c) {
      CleanAscii(Escape(c));
    } else {
      CleanText([c]);
      assert Encode([c]) == Escape(c);
    }
  }

  lemma {:induction false} CleanQuoted(cs: Text)
    ensures Clean(Quoted(cs))
  {
    CleanEscapeText(cs);
    CleanAscii([QUOTE]);
    CleanConcat(EscapeText(cs), [QUOTE]);
    CleanConcat([QUOTE], EscapeText(cs) + [QUOTE]);
  }

  lemma {:induction false} CleanEscapeText(cs: Text)
    ensures Clean(EscapeText(cs))
  {
    if cs == [] {
      CleanAscii([]);
    } else {
      CleanEscape(cs[0]);
      CleanEscapeText(cs[1..]);
      CleanConcat(Escape(cs[0]), EscapeText(cs[1..]));
    }
  }

  lemma NumberClean(n: Num)
    requires WfNum(n)
    ensures Clean(NumText(n))
  {
    assert forall i | 0 <= i < |ExpText(n.exp)| :: 0x20 < ExpText(n.exp)[i] < 0x80;
    assert forall i | 0 <= i < |FracText(n.frac)| :: 0x20 < FracText(n.frac)[i] < 0x80;
    CleanAscii(NumText(n));
  }

  lemma {:induction false} CanonClean(v: Value)
    requires NumbersValid(v)
    ensures Clean(Canon(v))
    decreases v, 1, 0
  {
    match v
    case Number(lexeme) =>
      var n :| WfNum(n) && lexeme == NumText(n);
      NumberClean(n);
    case Str(text) => CleanQuoted(text);
    case Arr(es) =>
      CleanAscii([]);
      CleanElems(es, []);
      CleanBracketed([LBRACKET], CanonElems(es, []), [RBRACKET]);
    case Obj(m) =>
      CleanAscii([]);
      CleanMembers(v, SortedKeys(m.Keys), []);
      CleanBracketed([LBRACE], CanonMembers(v, SortedKeys(m.Keys), []), [RBRACE]);
    case _ => CleanAscii(Canon(v));
  }

  lemma CleanBracketed(open: ByteString, body: ByteString, close: ByteString)
    requires Clean(body) && forall i | 0 <= i < |open + close| :: 0x20 <= (open + close)[i] < 0x80
    ensures Clean(open + (body + close))
  {
    assert forall i | 0 <= i < |open| :: open[i] == (open + close)[i];
    assert forall i | 0 <= i < |close| :: close[i] == (open + close)[|open| + i];
    CleanAscii(open);
    CleanAscii(close);
    CleanConcat(body, close);
    CleanConcat(open, body + close);
  }

  lemma {:induction false} CleanElems(es: seq<Value>, lead: ByteString)
    requires Clean(lead) && forall i | 0 <= i < |es| :: NumbersValid(es[i])
    ensures Clean(CanonElems(es, lead))
    decreases es, 0, 0
  {
    if es == [] {
      CleanAscii([]);
    } else {
      CanonClean(es[0]);
      CleanAscii(SEPARATOR);
      CleanElems(es[1..], SEPARATOR);
      CleanConcat(Canon(es[0]), CanonElems(es[1..], SEPARATOR));
      CleanConcat(lead, Canon(es[0]) + CanonElems(es[1..], SEPARATOR));
    }
  }

  lemma {:induction false} CleanMembers(v: Value, ks: seq<Text>, lead: ByteString)
    requires v.Obj? && NumbersValid(v) && Clean(lead) && forall k | k in ks :: k in v.members
    ensures Clean(CanonMembers(v, ks, lead))
    decreases v, 0, |ks|
  {
    if ks == [] {
      CleanAscii([]);
    } else {
      var k, rest := ks[0], CanonMembers(v, ks[1..], SEPARATOR);
      assert k in ks;
      CleanQuoted(k);
      CanonClean(v.members[k]);
      CleanAscii([COLON]);
      CleanAscii(SEPARATOR);
      CleanMembers(v, ks[1..], SEPARATOR);
      CleanConcat([COLON], Canon(v.members[k]));
      CleanConcat(Quoted(k), [COLON] + Canon(v.members[k]));
      CleanConcat(CanonMember(v, k), rest);
      CleanConcat(lead, CanonMember(v, k) + rest);
    }
  }

  lemma CanonNotEmpty(v: Value)
    requires NumbersValid(v)
    ensures Canon(v) != []
  {
    if v.Number? {
      var n :| WfNum(n) && v.lexeme == NumText(n);
    }
  }

  /** Line safety: the canonical bytes of a serializable value are valid UTF-8, one line to
      every reader, and always accepted by Append. */
  lemma CanonFramable(v: Value)
    requires NumbersValid(v)
    ensures Valid(Canon(v)) && Framable(Canon(v))
  {
    CanonClean(v);
    ValidIsEncoded(Canon(v));
    CleanHasNoBreak(Canon(v));
    CanonNotEmpty(v);
  }

  /** In particular for everything the strict decoder accepts. */
  lemma DecodedFramable(data: ByteString)
    requires Strict(data).Ok?
    ensures Framable(Canon(Strict(data).value))
  {
    AcceptedIsSerializable(data);
    CanonFramable(Strict(data).value);
  }
}
