/** From a raw line to the bytes its digest is taken over: the path through ParseEventLine
    (internal/contract/event.go). The schema, profile and timestamp checks are libraries
    and table lookups that see only the decoded value; they are one predicate here. The
    digest function is left uninterpreted: the claims are about the bytes it is given. */
module EventLine {
  import opened Utf8
  import opened Values
  import opened Tokens
  import opened Decoder
  import opened Grammar
  import opened Canonical
  import opened StrictDecode
  import opened RoundTrip
  import opened LineSafety
  import Utf16

  const DEFAULT_MAX_EVENT_BYTES: int := 262144

  datatype LineError =
    | Oversized
    | NotSingleLine
    | Undecodable(error: DecodeError)
    | NotAnObject
    | Nonconforming

  datatype Parsed = Accepted(value: Value, hashed: ByteString) | Rejected(error: LineError)

  /** bytes.TrimSuffix(line, "\n"). */
  function TrimNewline(line: ByteString): ByteString {
    if line != [] && line[|line| - 1] == LF then line[..|line| - 1] else line
  }

  method CanonicalDigestInput(v: Value) returns (hashed: ByteString)
    ensures hashed == Canon(v)
  {
    hashed := AppendCanonical([], v);
  }

  method ParseEventLine(line: ByteString, maxEventBytes: int, conforms: Value -> bool) returns (r: Parsed)
    ensures r == Parse(line, maxEventBytes, conforms)
  {
    var bound := maxEventBytes;
    if bound <= 0 { bound := DEFAULT_MAX_EVENT_BYTES; }
    if |line| > bound { return Rejected(Oversized); }
    var trimmed := TrimNewline(line);
    if LF in trimmed { return Rejected(NotSingleLine); }
    var value := DecodeStrict(trimmed);
    if value.Err? { return Rejected(Undecodable(value.error)); }
    if !value.value.Obj? { return Rejected(NotAnObject); }
    if !conforms(value.value) { return Rejected(Nonconforming); }
    var hashed := CanonicalDigestInput(value.value);
    r := Accepted(value.value, hashed);
  }

  ghost function Parse(line: ByteString, maxEventBytes: int, conforms: Value -> bool): Parsed {
    var trimmed := TrimNewline(line);
    if |line| > Bound(maxEventBytes) then Rejected(Oversized)
    else if LF in trimmed then Rejected(NotSingleLine)
    else
      match Strict(trimmed)
      case Err(e) => Rejected(Undecodable(e))
      case Ok(v) =>
        if !v.Obj? then Rejected(NotAnObject)
        else if !conforms(v) then Rejected(Nonconforming)
        else Accepted(v, Canon(v))
  }

  /** The byte bound, the final newline counted. */
  function Bound(maxEventBytes: int): int {
    if maxEventBytes <= 0 then DEFAULT_MAX_EVENT_BYTES else maxEventBytes
  }

  /** The line is this text, the final newline there or not. */
  predicate IsLineOf(line: ByteString, text: ByteString) {
    LF !in text && (line == text || line == text + [LF])
  }

  lemma TrimIffLineOf(line: ByteString, text: ByteString)
    ensures TrimNewline(line) == text && LF !in text <==> IsLineOf(line, text)
  {
    if line != [] && line[|line| - 1] == LF {
      assert line == line[..|line| - 1] + [LF] && line[|line| - 1] in line;
      assert (text + [LF])[..|text|] == text;
    } else {
      assert (text + [LF])[|text|] == LF;
    }
  }

  /** The line holds a document that is an event and means v. */
  ghost predicate EventText(doc: Document, line: ByteString, v: Value) {
    Admissible(doc) && doc.value.CObject? && Meaning(doc.value) == v && IsLineOf(line, DocumentText(doc))
  }

  lemma EventTextIff(line: ByteString, v: Value)
    ensures LF !in TrimNewline(line) && Strict(TrimNewline(line)) == Ok(v) && v.Obj? <==> exists doc :: EventText(doc, line, v)
  {
    var text := TrimNewline(line);
    TrimIffLineOf(line, text);
    StrictIffAdmissible(text, v);
    if LF !in text && Strict(text) == Ok(v) && v.Obj? {
      var doc :| Spells(doc, text, v);
      assert EventText(doc, line, v);
    }
    forall doc | EventText(doc, line, v) ensures LF !in text && Strict(text) == Ok(v) && v.Obj? {
      TrimIffLineOf(line, DocumentText(doc));
      assert Spells(doc, text, v);
    }
  }

  /** A line is accepted with a value exactly when it is within the bound and is the text,
      free of newlines and with or without a final one, of an admissible document whose
      value is an object that conforms; the digest input is that value's canonical form. */
  lemma AcceptsExactlyEvents(line: ByteString, max: int, conforms: Value -> bool, v: Value)
    ensures (Parse(line, max, conforms) == Accepted(v, Canon(v))) <==>
      (|line| <= (if max <= 0 then 256 * 1024 else max) && conforms(v) && exists doc :: EventText(doc, line, v))
  {
    EventTextIff(line, v);
  }

  /** When a line is refused as oversized, and when as more than one line: a newline before
      its last byte. */
  lemma RefusedUnread(line: ByteString, max: int, conforms: Value -> bool)
    ensures Parse(line, max, conforms) == Rejected(Oversized) <==> |line| > (if max <= 0 then 256 * 1024 else max)
    ensures Parse(line, max, conforms) == Rejected(NotSingleLine) <==>
      |line| <= (if max <= 0 then 256 * 1024 else max) && exists i :: 0 <= i < |line| - 1 && line[i] == LF
  {
    var text := TrimNewline(line);
    assert forall i | 0 <= i < |line| - 1 :: line[i] == text[i];
    assert LF in text <==> exists i :: 0 <= i < |line| - 1 && line[i] == LF;
  }

  /** A line that is read is refused as no object exactly when its document is something else,
      and as nonconforming exactly when it is an object that does not conform. */
  lemma RefusedRead(line: ByteString, max: int, conforms: Value -> bool, doc: Document)
    requires Admissible(doc) && IsLineOf(line, DocumentText(doc)) && |line| <= Bound(max)
    ensures Parse(line, max, conforms) == Rejected(NotAnObject) <==> !doc.value.CObject?
    ensures Parse(line, max, conforms) == Rejected(Nonconforming) <==>
      doc.value.CObject? && !conforms(Meaning(doc.value))
  {
    TrimIffLineOf(line, DocumentText(doc));
    AcceptsAdmissible(doc);
  }

  /** Duplicate or conflict: two accepted lines, each under its own bound and profile, feed
      the same bytes to the digest if and only if they decode to the same tree. */
  lemma DigestIffSameTree(l1: ByteString, max1: int, conforms1: Value -> bool,
        l2: ByteString, max2: int, conforms2: Value -> bool)
    requires Parse(l1, max1, conforms1).Accepted? && Parse(l2, max2, conforms2).Accepted?
    ensures var p1, p2 := Parse(l1, max1, conforms1), Parse(l2, max2, conforms2);
      p1.hashed == p2.hashed <==> p1.value == p2.value
  {
    AcceptedIsSerializable(TrimNewline(l1));
    AcceptedIsSerializable(TrimNewline(l2));
    CanonDecidesEquality(Parse(l1, max1, conforms1).value, Parse(l2, max2, conforms2).value);
  }

  /** A document that ParseEventLine accepts as a line. */
  ghost predicate IsEvent(doc: Document, max: int, conforms: Value -> bool) {
    && Admissible(doc) && doc.value.CObject? && conforms(Meaning(doc.value))
    && LF !in DocumentText(doc) && |DocumentText(doc)| < Bound(max)
  }

  /** An event is accepted with and without the final newline. */
  lemma EventAccepted(doc: Document, max: int, conforms: Value -> bool)
    requires IsEvent(doc, max, conforms)
    ensures var accepted := Accepted(Meaning(doc.value), Canon(Meaning(doc.value)));
      Parse(DocumentText(doc), max, conforms) == accepted && Parse(DocumentText(doc) + [LF], max, conforms) == accepted
  {
    var t := DocumentText(doc);
    AcceptsAdmissible(doc);
    assert TrimNewline(t) == t by { if t != [] { assert t[|t| - 1] in t; } }
    assert TrimNewline(t + [LF]) == t;
  }

  /** Spelling never matters and lexemes always do: whatever white space, member order and
      escapes two documents use, with or without the final newline, under whatever bounds
      and profiles, the digest input is the same exactly when they mean the same tree. */
  lemma DigestIgnoresSpelling(d1: Document, l1: ByteString, max1: int, conforms1: Value -> bool,
        d2: Document, l2: ByteString, max2: int, conforms2: Value -> bool)
    requires IsEvent(d1, max1, conforms1) && (l1 == DocumentText(d1) || l1 == DocumentText(d1) + [LF])
    requires IsEvent(d2, max2, conforms2) && (l2 == DocumentText(d2) || l2 == DocumentText(d2) + [LF])
    ensures var p1, p2 := Parse(l1, max1, conforms1), Parse(l2, max2, conforms2);
      && p1.Accepted? && p2.Accepted?
      && (p1.hashed == p2.hashed <==> Meaning(d1.value) == Meaning(d2.value))
  {
    EventAccepted(d1, max1, conforms1);
    EventAccepted(d2, max2, conforms2);
    MeaningIsSerializable(d1.value, MAX_DEPTH);
    MeaningIsSerializable(d2.value, MAX_DEPTH);
    CanonDecidesEquality(Meaning(d1.value), Meaning(d2.value));
  }

  /** The canonical line of an accepted event is itself accepted, with the same tree and
      the same digest, exactly when it is within the byte bound; escaping separators can
      lengthen a line. */
  lemma CanonicalLineReparses(line: ByteString, max: int, conforms: Value -> bool)
    requires Parse(line, max, conforms).Accepted?
    ensures var p := Parse(line, max, conforms);
      Parse(p.hashed + [LF], max, conforms) == p <==> |p.hashed| < Bound(max)
  {
    var p := Parse(line, max, conforms);
    var c := p.hashed;
    AcceptedIsSerializable(TrimNewline(line));
    RoundTrips(p.value);
    CanonFramable(p.value);
    assert TrimNewline(c + [LF]) == c;
    FramableNoLF(c);
  }

  // ---- A line whose canonical form is too long ---------------------------------------

  const SEPARATOR_TEXT: Text := [0x2028]
  const RAW_SEPARATOR: ByteString := [0xE2, 0x80, 0xA8]

  /** {"":"<U+2028>"} with the separator raw. */
  function RawSeparator(): (doc: Document)
    ensures Admissible(doc) && doc.value.CObject? && Meaning(doc.value) == Obj(map[[] := Str(SEPARATOR_TEXT)])
    ensures DocumentText(doc) == [LBRACE, QUOTE, QUOTE, COLON, QUOTE] + (RAW_SEPARATOR + [QUOTE, RBRACE])
  {
    SeparatorLiteral();
    EmptyKey();
    var ms := Member([], [], [], [], [], CString([Raw(0x2028)]), NoMember);
    assert MembersMeaning(ms, map[]) == map[[] := Str(SEPARATOR_TEXT)];
    assert MembersText(ms, []) == [QUOTE, QUOTE, COLON, QUOTE] + (RAW_SEPARATOR + [QUOTE]);
    Document([], CObject(ms, []), [])
  }

  lemma SeparatorLiteral()
    ensures var items := [Raw(0x2028)];
      && WfItems(items) && StringText(items) == [QUOTE] + (RAW_SEPARATOR + [QUOTE])
      && StringMeaning(items) == SEPARATOR_TEXT && StringScalar(items)
  {
    var items := [Raw(0x2028)];
    assert items[1..] == [] && EncodeScalar(0x2028) == RAW_SEPARATOR;
    assert ItemsUnits(items) == [0x2028];
    assert [0x2028 as Utf16.Unit][1..] == [];
  }

  lemma EmptyKey()
    ensures WfItems([]) && StringText([]) == [QUOTE, QUOTE] && StringMeaning([]) == [] && StringScalar([])
  {
  }

  lemma CanonicalSeparator()
    ensures |Canon(Obj(map[[] := Str(SEPARATOR_TEXT)]))| == 13
  {
    var v := Obj(map[[] := Str(SEPARATOR_TEXT)]);
    var none: Text := [];
    SortedUnique(SortedKeys(v.members.Keys), [none]);
    assert SEPARATOR_TEXT[1..] == [] && |Escape(0x2028)| == 6;
    assert Canon(v.members[none]) == Quoted(SEPARATOR_TEXT);
    assert |EscapeText(SEPARATOR_TEXT)| == 6;
    assert |CanonMember(v, none)| == 2 + 1 + 8;
    assert [none][1..] == [];
    assert CanonMembers(v, [none], []) == CanonMember(v, none) + [];
  }

  /** The line is accepted at a bound of its own length, and its canonical line is turned
      away there as oversized. */
  lemma CanonicalLineOutgrows(conforms: Value -> bool)
    requires conforms(Obj(map[[] := Str(SEPARATOR_TEXT)]))
    ensures var line := DocumentText(RawSeparator());
      var p := Parse(line, |line|, conforms);
      p.Accepted? && Parse(p.hashed + [LF], |line|, conforms) == Rejected(Oversized)
  {
    var line := DocumentText(RawSeparator());
    assert |line| == 10 && LF !in line && TrimNewline(line) == line;
    AcceptsAdmissible(RawSeparator());
    CanonicalSeparator();
  }
}
