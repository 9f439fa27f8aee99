/** The grammar of RFC 8259 as syntax trees: a tree says which bytes spell it (sections 2
    to 7) and which value it means. Nothing here knows about the decoder. */
module Grammar {
  import opened Utf8
  import opened Values
  import Utf16

  // ---- Numbers, section 6 ------------------------------------------------------------

  predicate IsDigit(b: int) { 0x30 <= b <= 0x39 }
  predicate AllDigits(s: ByteString) { forall i | 0 <= i < |s| :: IsDigit(s[i]) }
  predicate IsExpLetter(b: int) { b == 0x65 || b == 0x45 }

  datatype Exponent = NoExp | Exp(letter: Byte, sign: ByteString, digits: ByteString)

  /** The characters of numbers and white space. */
  lemma CharacterClasses(b: int)
    ensures IsDigit(b) <==> exists i: int | 0 <= i < 10 :: b == "0123456789"[i] as int
    ensures IsExpLetter(b) <==> b == 'e' as int || b == 'E' as int
    ensures IsSpace(b) <==> b == ' ' as int || b == '\t' as int || b == '\n' as int || b == '\r' as int
    ensures forall s :: IsSign(s) <==> s == [] || s == Ascii("+") || s == Ascii("-")
  {
    if IsDigit(b) {
      assert b == "0123456789"[b - 0x30] as int;
    }
  }

  /** An empty frac means no fraction part. */
  datatype Num = Num(negative: bool, whole: ByteString, frac: ByteString, exp: Exponent)

  predicate WfNum(n: Num) {
    && |n.whole| > 0 && AllDigits(n.whole) && (n.whole[0] == ZERO ==> |n.whole| == 1)
    && AllDigits(n.frac)
    && WfExp(n.exp)
  }

  predicate IsSign(s: ByteString) { s == [] || s == [PLUS] || s == [MINUS] }

  predicate WfExp(e: Exponent) {
    e.Exp? ==> IsExpLetter(e.letter) && IsSign(e.sign) && |e.digits| > 0 && AllDigits(e.digits)
  }

  function Minus(n: Num): ByteString {
    if n.negative then [MINUS] else []
  }

  function FracText(frac: ByteString): ByteString {
    if frac == [] then [] else [DOT] + frac
  }

  function ExpText(e: Exponent): ByteString {
    if e.NoExp? then [] else [e.letter] + (e.sign + e.digits)
  }

  function NumText(n: Num): ByteString {
    Minus(n) + (n.whole + (FracText(n.frac) + ExpText(n.exp)))
  }

  /** A number lexeme. */
  ghost predicate IsNumber(lexeme: ByteString) {
    exists n :: WfNum(n) && lexeme == NumText(n)
  }

  // ---- Strings, section 7 ------------------------------------------------------------

  /** One character of a string literal as it is spelled. */
  datatype Item = Raw(c: Scalar) | Short(letter: Byte) | Hex(digits: ByteString)

  predicate IsHexDigit(b: int) { 0x30 <= b <= 0x39 || 0x41 <= b <= 0x46 || 0x61 <= b <= 0x66 }

  function HexValue(b: int): (v: int)
    requires IsHexDigit(b)
    ensures 0 <= v < 0x10
  {
    if b <= 0x39 then b - 0x30 else if b <= 0x46 then b - 0x37 else b - 0x57
  }

  predicate FourHexDigits(s: ByteString) {
    |s| == 4 && IsHexDigit(s[0]) && IsHexDigit(s[1]) && IsHexDigit(s[2]) && IsHexDigit(s[3])
  }

  function HexUnit(s: ByteString): (u: Utf16.Unit)
    requires FourHexDigits(s)
  {
    HexValue(s[0]) * 0x1000 + HexValue(s[1]) * 0x100 + HexValue(s[2]) * 0x10 + HexValue(s[3])
  }

  const UPPER_HEX: string := "0123456789ABCDEF"
  const LOWER_HEX: string := "0123456789abcdef"

  /** A hexadecimal digit of either case. */
  predicate IsHexOf(b: int, n: int)
    requires 0 <= n < 0x10
  {
    b == UPPER_HEX[n] as int || b == LOWER_HEX[n] as int
  }

  lemma HexTable(b: int)
    ensures IsHexDigit(b) <==> exists n: int | 0 <= n < 0x10 :: IsHexOf(b, n)
    ensures forall n: int | 0 <= n < 0x10 && IsHexOf(b, n) :: HexValue(b) == n
  {
    if IsHexDigit(b) {
      HexDigitOf(b);
    }
    forall n: int | 0 <= n < 0x10 && IsHexOf(b, n) ensures IsHexDigit(b) && HexValue(b) == n {
      HexOfReads(b, n);
    }
  }

  /** The hexadecimal digits of a unit, most significant first, in any mixture of cases. */
  predicate SpellsUnit(s: ByteString, u: Utf16.Unit) {
    |s| == 4 && IsHexOf(s[0], u / 0x1000) && IsHexOf(s[1], u / 0x100 % 0x10)
    && IsHexOf(s[2], u / 0x10 % 0x10) && IsHexOf(s[3], u % 0x10)
  }

  /** Four digits read as a unit exactly when they spell it. */
  lemma HexUnitReads(s: ByteString, u: Utf16.Unit)
    ensures FourHexDigits(s) && HexUnit(s) == u <==> SpellsUnit(s, u)
  {
    if FourHexDigits(s) {
      HexUnitSpelled(s);
    }
    if SpellsUnit(s, u) {
      SpelledReads(s, u);
    }
  }

  lemma HexUnitSpelled(s: ByteString)
    requires FourHexDigits(s)
    ensures SpellsUnit(s, HexUnit(s))
  {
    HexDigitOf(s[0]);
    HexDigitOf(s[1]);
    HexDigitOf(s[2]);
    HexDigitOf(s[3]);
    SpelledFrom(s, HexValue(s[0]), HexValue(s[1]), HexValue(s[2]), HexValue(s[3]), HexUnit(s));
  }

  lemma SpelledFrom(s: ByteString, a: int, b: int, c: int, d: int, u: Utf16.Unit)
    requires 0 <= a < 0x10 && 0 <= b < 0x10 && 0 <= c < 0x10 && 0 <= d < 0x10
    requires |s| == 4 && IsHexOf(s[0], a) && IsHexOf(s[1], b) && IsHexOf(s[2], c) && IsHexOf(s[3], d)
    requires u == a * 0x1000 + b * 0x100 + c * 0x10 + d
    ensures SpellsUnit(s, u)
  {
    Nibbles(a, b, c, d);
  }

  lemma HexDigitOf(b: int)
    requires IsHexDigit(b)
    ensures IsHexOf(b, HexValue(b))
  {
  }

  lemma HexOfReads(b: int, n: int)
    requires 0 <= n < 0x10 && IsHexOf(b, n)
    ensures IsHexDigit(b) && HexValue(b) == n
  {
  }

  lemma SpelledReads(s: ByteString, u: Utf16.Unit)
    requires SpellsUnit(s, u)
    ensures FourHexDigits(s) && HexUnit(s) == u
  {
    HexOfReads(s[0], u / 0x1000);
    HexOfReads(s[1], u / 0x100 % 0x10);
    HexOfReads(s[2], u / 0x10 % 0x10);
    HexOfReads(s[3], u % 0x10);
    Recombined(u);
  }

  lemma Nibbles(a: int, b: int, c: int, d: int)
    requires 0 <= a < 0x10 && 0 <= b < 0x10 && 0 <= c < 0x10 && 0 <= d < 0x10
    ensures var u := a * 0x1000 + b * 0x100 + c * 0x10 + d;
      u / 0x1000 == a && u / 0x100 % 0x10 == b && u / 0x10 % 0x10 == c && u % 0x10 == d
  {
    var u := a * 0x1000 + b * 0x100 + c * 0x10 + d;
    var q3 := a * 0x10 + b;
    var q2 := q3 * 0x10 + c;
    assert u / 0x1000 == a;
    assert u == q3 * 0x100 + (c * 0x10 + d) && u / 0x100 == q3;
    assert u == q2 * 0x10 + d && u / 0x10 == q2;
    LowNibble(a, b);
    LowNibble(q3, c);
    LowNibble(q2, d);
  }

  lemma LowNibble(high: int, low: int)
    requires 0 <= high && 0 <= low < 0x10
    ensures (high * 0x10 + low) % 0x10 == low
  {
  }

  lemma Recombined(u: int)
    requires 0 <= u < 0x10000
    ensures u == u / 0x1000 * 0x1000 + u / 0x100 % 0x10 * 0x100 + u / 0x10 % 0x10 * 0x10 + u % 0x10
  {
    assert u / 0x100 == u / 0x1000 * 0x10 + u / 0x100 % 0x10;
    assert u / 0x10 == u / 0x100 * 0x10 + u / 0x10 % 0x10;
  }

  /** What the letter after a backslash stands for, -1 if nothing. */
  function ShortValue(letter: int): (u: int)
    ensures -1 <= u < 0x80
  {
    if letter == QUOTE || letter == BACKSLASH || letter == SLASH then letter
    else if letter == 0x62 then 0x08
    else if letter == 0x66 then 0x0C
    else if letter == 0x6E then 0x0A
    else if letter == 0x72 then 0x0D
    else if letter == 0x74 then 0x09
    else -1
  }

  /** The two-character escapes: these letters, standing for these characters. */
  lemma ShortTable(letter: int, u: int)
    ensures 0 <= u && ShortValue(letter) == u <==>
      exists i: int | 0 <= i < 8 :: letter == "\"\\/bfnrt"[i] as int && u == [0x22, 0x5C, 0x2F, 0x08, 0x0C, 0x0A, 0x0D, 0x09][i]
  {
    var ls, us := "\"\\/bfnrt", [0x22, 0x5C, 0x2F, 0x08, 0x0C, 0x0A, 0x0D, 0x09];
    if 0 <= u && ShortValue(letter) == u {
      assert letter == ls[0] as int || letter == ls[1] as int || letter == ls[2] as int || letter == ls[3] as int
          || letter == ls[4] as int || letter == ls[5] as int || letter == ls[6] as int || letter == ls[7] as int;
    }
  }

  predicate WfItem(it: Item) {
    match it
    case Raw(c) => 0x20 <= c && c != QUOTE && c != BACKSLASH
    case Short(letter) => ShortValue(letter) >= 0
    case Hex(digits) => FourHexDigits(digits)
  }

  /** Unescaped, section 7: everything but the quotation mark, the reverse solidus and the
      control characters. */
  lemma RawTable(c: Scalar)
    ensures WfItem(Raw(c)) <==> ' ' as int <= c && c != '"' as int && c != '\\' as int
  {
  }

  predicate WfItems(items: seq<Item>) { forall i | 0 <= i < |items| :: WfItem(items[i]) }

  function ItemText(it: Item): ByteString {
    match it
    case Raw(c) => EncodeScalar(c)
    case Short(letter) => [BACKSLASH, letter]
    case Hex(digits) => [BACKSLASH, LOWER_U] + digits
  }

  function ItemsText(items: seq<Item>): ByteString {
    if items == [] then [] else ItemText(items[0]) + ItemsText(items[1..])
  }

  function StringText(items: seq<Item>): ByteString {
    [QUOTE] + (ItemsText(items) + [QUOTE])
  }

  /** The code units a spelled character contributes. */
  function ItemUnits(it: Item): Utf16.Units
    requires WfItem(it)
  {
    match it
    case Raw(c) => Utf16.ScalarUnits(c)
    case Short(letter) => [ShortValue(letter)]
    case Hex(digits) => [HexUnit(digits)]
  }

  function ItemsUnits(items: seq<Item>): Utf16.Units
    requires WfItems(items)
  {
    if items == [] then [] else ItemUnits(items[0]) + ItemsUnits(items[1..])
  }

  /** The scalars a literal means; an unpaired surrogate reads as U+FFFD. */
  function StringMeaning(items: seq<Item>): Text
    requires WfItems(items)
  {
    Utf16.Decode(ItemsUnits(items))
  }

  /** The literal denotes scalars only. */
  predicate StringScalar(items: seq<Item>)
    requires WfItems(items)
  {
    Utf16.WellFormed(ItemsUnits(items))
  }

  // ---- Values, sections 2 to 5 -------------------------------------------------------

  predicate IsSpace(b: int) { b == SPACE || b == TAB || b == LF || b == CR }
  predicate Spaces(s: ByteString) { forall i | 0 <= i < |s| :: IsSpace(s[i]) }

  datatype Cst =
    | CNull
    | CBool(b: bool)
    | CNumber(n: Num)
    | CString(items: seq<Item>)
    | CArray(elems: Elems, close: ByteString)
    | CObject(members: Members, close: ByteString)

  /** White space may stand before the separator and before the value. */
  datatype Elems =
    | NoElem
    | Elem(sep: ByteString, pre: ByteString, v: Cst, tail: Elems)

  datatype Members =
    | NoMember
    | Member(sep: ByteString, pre: ByteString, key: seq<Item>, colon: ByteString, before: ByteString, v: Cst, tail: Members)

  predicate Wf(c: Cst) {
    match c
    case CNumber(n) => WfNum(n)
    case CString(items) => WfItems(items)
    case CArray(es, close) => Spaces(close) && WfElems(es)
    case CObject(ms, close) => Spaces(close) && WfMembers(ms)
    case _ => true
  }

  predicate WfElems(es: Elems) {
    es.Elem? ==> Spaces(es.sep) && Spaces(es.pre) && Wf(es.v) && WfElems(es.tail)
  }

  predicate WfMembers(ms: Members) {
    ms.Member? ==>
      Spaces(ms.sep) && Spaces(ms.pre) && WfItems(ms.key) && Spaces(ms.colon) && Spaces(ms.before)
      && Wf(ms.v) && WfMembers(ms.tail)
  }

  /** The bytes of a value. */
  function CstText(c: Cst): ByteString {
    match c
    case CNull => NULL
    case CBool(b) => if b then TRUE else FALSE
    case CNumber(n) => NumText(n)
    case CString(items) => StringText(items)
    case CArray(es, close) => [LBRACKET] + (ElemsText(es, []) + (close + [RBRACKET]))
    case CObject(ms, close) => [LBRACE] + (MembersText(ms, []) + (close + [RBRACE]))
  }

  /** lead is the separator in front of the first element: none, or a comma. */
  function ElemsText(es: Elems, lead: ByteString): ByteString {
    match es
    case NoElem => []
    case Elem(sep, pre, v, tail) => sep + (lead + (pre + (CstText(v) + ElemsText(tail, SEPARATOR))))
  }

  function MembersText(ms: Members, lead: ByteString): ByteString {
    match ms
    case NoMember => []
    case Member(sep, pre, key, colon, before, v, tail) =>
      sep + (lead + (pre + (StringText(key) + (colon + ([COLON] + (before + (CstText(v) + MembersText(tail, SEPARATOR))))))))
  }

  lemma ElemsUnfold(es: Elems, lead: ByteString, t: ByteString)
    requires es.Elem?
    ensures ElemsText(es, lead) + t
         == es.sep + (lead + (es.pre + (CstText(es.v) + (ElemsText(es.tail, SEPARATOR) + t))))
  {
    var x := ElemsText(es.tail, SEPARATOR);
    var v := CstText(es.v);
    Assoc(v, x, t);
    Assoc(es.pre, v + x, t);
    Assoc(lead, es.pre + (v + x), t);
    Assoc(es.sep, lead + (es.pre + (v + x)), t);
  }

  /** What comes after the key of the first member. */
  function MemberTail(ms: Members, t: ByteString): ByteString
    requires ms.Member?
  {
    ms.colon + ([COLON] + (ms.before + (CstText(ms.v) + (MembersText(ms.tail, SEPARATOR) + t))))
  }

  lemma MembersUnfold(ms: Members, lead: ByteString, t: ByteString)
    requires ms.Member?
    ensures MembersText(ms, lead) + t
         == ms.sep + (lead + (ms.pre + (StringText(ms.key) + MemberTail(ms, t))))
  {
    var x, v, k := MembersText(ms.tail, SEPARATOR), CstText(ms.v), StringText(ms.key);
    var m1 := ms.before + (v + x);
    var m2 := ms.colon + ([COLON] + m1);
    Assoc(v, x, t);
    Assoc(ms.before, v + x, t);
    Assoc([COLON], m1, t);
    Assoc(ms.colon, [COLON] + m1, t);
    Assoc(k, m2, t);
    Assoc(ms.pre, k + m2, t);
    Assoc(lead, ms.pre + (k + m2), t);
    Assoc(ms.sep, lead + (ms.pre + (k + m2)), t);
  }

  /** The value a tree means. */
  function Meaning(c: Cst): Value
    requires Wf(c)
  {
    match c
    case CNull => Null
    case CBool(b) => Bool(b)
    case CNumber(n) => Number(NumText(n))
    case CString(items) => Str(StringMeaning(items))
    case CArray(es, _) => Arr(ElemsMeaning(es))
    case CObject(ms, _) => Obj(MembersMeaning(ms, map[]))
  }

  function ElemsMeaning(es: Elems): seq<Value>
    requires WfElems(es)
  {
    if es.NoElem? then [] else [Meaning(es.v)] + ElemsMeaning(es.tail)
  }

  function MembersMeaning(ms: Members, acc: map<Text, Value>): map<Text, Value>
    requires WfMembers(ms)
    decreases ms
  {
    if ms.NoMember? then acc else MembersMeaning(ms.tail, acc[StringMeaning(ms.key) := Meaning(ms.v)])
  }

  /** Containers nest at most n deep. */
  predicate CstDepth(c: Cst, n: int) {
    match c
    case CArray(es, _) => n > 0 && ElemsDepth(es, n - 1)
    case CObject(ms, _) => n > 0 && MembersDepth(ms, n - 1)
    case _ => true
  }

  predicate ElemsDepth(es: Elems, n: int) {
    es.Elem? ==> CstDepth(es.v, n) && ElemsDepth(es.tail, n)
  }

  predicate MembersDepth(ms: Members, n: int) {
    ms.Member? ==> CstDepth(ms.v, n) && MembersDepth(ms.tail, n)
  }

  /** No object at any depth repeats a key after unescaping. */
  predicate UniqueKeys(c: Cst)
    requires Wf(c)
  {
    match c
    case CArray(es, _) => ElemsUnique(es)
    case CObject(ms, _) => MembersUnique(ms, {})
    case _ => true
  }

  predicate ElemsUnique(es: Elems)
    requires WfElems(es)
  {
    es.Elem? ==> UniqueKeys(es.v) && ElemsUnique(es.tail)
  }

  predicate MembersUnique(ms: Members, seen: set<Text>)
    requires WfMembers(ms)
    decreases ms
  {
    ms.Member? ==>
      StringMeaning(ms.key) !in seen && UniqueKeys(ms.v) && MembersUnique(ms.tail, seen + {StringMeaning(ms.key)})
  }

  /** Every string literal, keys included, denotes scalars only. */
  predicate ScalarOnly(c: Cst)
    requires Wf(c)
  {
    match c
    case CString(items) => StringScalar(items)
    case CArray(es, _) => ElemsScalar(es)
    case CObject(ms, _) => MembersScalar(ms)
    case _ => true
  }

  predicate ElemsScalar(es: Elems)
    requires WfElems(es)
  {
    es.Elem? ==> ScalarOnly(es.v) && ElemsScalar(es.tail)
  }

  predicate MembersScalar(ms: Members)
    requires WfMembers(ms)
  {
    ms.Member? ==> StringScalar(ms.key) && ScalarOnly(ms.v) && MembersScalar(ms.tail)
  }

  /** A JSON text: one value between white space. */
  datatype Document = Document(before: ByteString, value: Cst, after: ByteString)

  predicate WfDocument(d: Document) {
    Spaces(d.before) && Wf(d.value) && Spaces(d.after)
  }

  function DocumentText(d: Document): ByteString {
    d.before + (CstText(d.value) + d.after)
  }
}
