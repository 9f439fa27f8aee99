/** Canonical bytes are a JSON text: printing and strict decoding are inverse, so the
    canonical form identifies the value (internal/contract/canonical.go, json.go). */
module RoundTrip {
  import opened Utf8
  import opened Values
  import opened Grammar
  import opened Lexer
  import opened Tokens
  import opened Decoder
  import opened Canonical
  import opened StrictDecode
  import Utf16

  /** Every number in v carries a lexeme of the grammar. */
  ghost predicate NumbersValid(v: Value) {
    match v
    case Number(lexeme) => IsNumber(lexeme)
    case Arr(es) => forall i | 0 <= i < |es| :: NumbersValid(es[i])
    case Obj(m) => forall k | k in m :: NumbersValid(m[k])
    case _ => true
  }

  // ---- The syntax tree of the canonical form -----------------------------------------

  function HexDigits(c: int): ByteString
    requires 0 <= c < 0x10000
  {
    [HexDigit(c / 0x1000), HexDigit(c / 0x100 % 0x10), HexDigit(c / 0x10 % 0x10), HexDigit(c % 0x10)]
  }

  function CanonItem(c: Scalar): Item {
    if c == QUOTE || c == BACKSLASH then Short(c)
    else if ShortLetter(c) != 0 then Short(ShortLetter(c))
    else if c < 0x20 || IsSeparator(c) then Hex(HexDigits(c))
    else Raw(c)
  }

  lemma HexDigitValue(n: int)
    requires 0 <= n < 0x10
    ensures IsHexDigit(HexDigit(n)) && HexValue(HexDigit(n)) == n
  {
  }

  /** The escape table spells each scalar as itself. */
  lemma CanonItemSpells(c: Scalar)
    ensures WfItem(CanonItem(c)) && ItemText(CanonItem(c)) == Escape(c) && ItemUnits(CanonItem(c)) == Utf16.ScalarUnits(c)
  {
    if c < 0x10000 {
      HexDigitValue(c / 0x1000);
      HexDigitValue(c / 0x100 % 0x10);
      HexDigitValue(c / 0x10 % 0x10);
      HexDigitValue(c % 0x10);
      assert c / 0x1000 == c / 0x100 / 0x10 && c / 0x100 == c / 0x10 / 0x10;
    }
  }

  function CanonItems(cs: Text): seq<Item> {
    if cs == [] then [] else [CanonItem(cs[0])] + CanonItems(cs[1..])
  }

  lemma {:induction false} CanonItemsSpell(cs: Text)
    ensures WfItems(CanonItems(cs)) && ItemsText(CanonItems(cs)) == EscapeText(cs)
    ensures StringText(CanonItems(cs)) == Quoted(cs)
    ensures StringMeaning(CanonItems(cs)) == cs && StringScalar(CanonItems(cs))
  {
    CanonItemsUnits(cs);
    Utf16.DecodeInvertsEncode(cs);
  }

  lemma {:induction false} CanonItemsUnits(cs: Text)
    ensures WfItems(CanonItems(cs)) && ItemsText(CanonItems(cs)) == EscapeText(cs)
    ensures ItemsUnits(CanonItems(cs)) == Utf16.Encode(cs)
  {
    if cs != [] {
      CanonItemSpells(cs[0]);
      CanonItemsUnits(cs[1..]);
      assert CanonItems(cs)[1..] == CanonItems(cs[1..]);
    }
  }

  ghost function CanonCst(v: Value): Cst
    requires NumbersValid(v)
    decreases v, 1, 0
  {
    match v
    case Null => CNull
    case Bool(b) => CBool(b)
    case Number(lexeme) => var n :| WfNum(n) && lexeme == NumText(n); CNumber(n)
    case Str(text) => CString(CanonItems(text))
    case Arr(es) => CArray(CanonElemsCst(es), [])
    case Obj(m) => CObject(CanonMembersCst(v, SortedKeys(m.Keys)), [])
  }

  ghost function CanonElemsCst(es: seq<Value>): Elems
    requires forall i | 0 <= i < |es| :: NumbersValid(es[i])
    decreases es, 0, 0
  {
    if es == [] then NoElem else Elem([], [], CanonCst(es[0]), CanonElemsCst(es[1..]))
  }

  ghost function CanonMembersCst(v: Value, ks: seq<Text>): Members
    requires v.Obj? && NumbersValid(v) && forall k | k in ks :: k in v.members
    decreases v, 0, |ks|
  {
    if ks == [] then NoMember
    else
      assert ks[0] in ks;
      Member([], [], CanonItems(ks[0]), [], [], CanonCst(v.members[ks[0]]), CanonMembersCst(v, ks[1..]))
  }

  /** The tree is spelled by the canonical bytes, means v, and is admissible but for depth. */
  ghost predicate Presents(c: Cst, v: Value) {
    Wf(c) && CstText(c) == Canon(v) && Meaning(c) == v && UniqueKeys(c) && ScalarOnly(c)
  }

  lemma {:induction false} CanonCstPresents(v: Value)
    requires NumbersValid(v)
    ensures Presents(CanonCst(v), v)
    decreases v, 1, 0
  {
    match v
    case Str(text) => CanonItemsSpell(text);
    case Arr(es) =>
      CanonElemsPresent(es, []);
      NilLeft([RBRACKET]);
    case Obj(m) => CanonObjectPresents(v);
    case _ =>
  }

  lemma {:induction false} CanonObjectPresents(v: Value)
    requires v.Obj? && NumbersValid(v)
    ensures Presents(CanonCst(v), v)
    decreases v, 0, |SortedKeys(v.members.Keys)| + 1
  {
    var ks := SortedKeys(v.members.Keys);
    var none: map<Text, Value> := map[];
    SortedDistinct(ks);
    assert none.Keys == {};
    CanonMembersPresent(v, ks, [], none);
    PickedAll(v.members, ks, none);
    NilLeft([RBRACE]);
    var ms := CanonMembersCst(v, ks);
    assert CanonCst(v) == CObject(ms, []);
    assert CstText(CObject(ms, [])) == [LBRACE] + (CanonMembers(v, ks, []) + [RBRACE]) == Canon(v);
    assert Meaning(CObject(ms, [])) == v;
  }

  lemma PickedAll(m: map<Text, Value>, ks: seq<Text>, none: map<Text, Value>)
    requires none == map[] && forall k :: k in ks <==> k in m
    ensures none + Picked(m, ks) == m
  {
  }

  function Picked(m: map<Text, Value>, ks: seq<Text>): map<Text, Value>
    requires forall k | k in ks :: k in m
  {
    map k | k in ks :: m[k]
  }

  lemma SortedDistinct(ks: seq<Text>)
    requires Sorted(ks)
    ensures Distinct(ks)
  {
    forall i, j | 0 <= i < j < |ks| ensures ks[i] != ks[j] {
      Utf16.LessIsStrictTotal(ks[i], ks[j], ks[i]);
    }
  }

  ghost predicate Distinct(ks: seq<Text>) {
    forall i, j | 0 <= i < j < |ks| :: ks[i] != ks[j]
  }

  lemma {:induction false} CanonElemsPresent(es: seq<Value>, lead: ByteString)
    requires forall i | 0 <= i < |es| :: NumbersValid(es[i])
    ensures var c := CanonElemsCst(es);
      && WfElems(c) && ElemsText(c, lead) == CanonElems(es, lead) && ElemsMeaning(c) == es
      && ElemsUnique(c) && ElemsScalar(c)
    decreases es, 0, 0
  {
    if es != [] {
      CanonCstPresents(es[0]);
      CanonElemsPresent(es[1..], SEPARATOR);
      assert es == [es[0]] + es[1..];
      var t := Canon(es[0]) + CanonElems(es[1..], SEPARATOR);
      NilLeft(t);
      NilLeft(lead + t);
    }
  }

  lemma {:induction false} CanonMembersPresent(v: Value, ks: seq<Text>, lead: ByteString, acc: map<Text, Value>)
    requires v.Obj? && NumbersValid(v) && Distinct(ks) && forall k | k in ks :: k in v.members && k !in acc
    ensures var c := CanonMembersCst(v, ks);
      && WfMembers(c) && MembersText(c, lead) == CanonMembers(v, ks, lead)
      && MembersMeaning(c, acc) == acc + Picked(v.members, ks)
      && MembersUnique(c, acc.Keys) && MembersScalar(c)
    decreases v, 0, |ks|
  {
    if ks != [] {
      var k, tail := ks[0], ks[1..];
      assert k in ks && forall j | j in tail :: j in ks && j != k;
      var acc1 := acc[k := v.members[k]];
      CanonCstPresents(v.members[k]);
      CanonItemsSpell(k);
      CanonMembersPresent(v, tail, SEPARATOR, acc1);
      MemberText(v, ks, lead);
      assert acc.Keys + {k} == acc1.Keys;
      PickedStep(v.members, ks, acc);
    }
  }

  lemma PickedStep(m: map<Text, Value>, ks: seq<Text>, acc: map<Text, Value>)
    requires ks != [] && Distinct(ks) && forall k | k in ks :: k in m && k !in acc
    ensures (forall k | k in ks[1..] :: k in m) && acc[ks[0] := m[ks[0]]] + Picked(m, ks[1..]) == acc + Picked(m, ks)
  {
    assert ks[0] in ks && forall k | k in ks[1..] :: k in ks && k != ks[0];
    assert forall k :: k in ks <==> k == ks[0] || k in ks[1..];
  }

  lemma MemberText(v: Value, ks: seq<Text>, lead: ByteString)
    requires v.Obj? && ks != [] && NumbersValid(v) && forall k | k in ks :: k in v.members
    requires ks[0] in v.members && CstText(CanonCst(v.members[ks[0]])) == Canon(v.members[ks[0]])
    requires MembersText(CanonMembersCst(v, ks[1..]), SEPARATOR) == CanonMembers(v, ks[1..], SEPARATOR)
    ensures MembersText(CanonMembersCst(v, ks), lead) == CanonMembers(v, ks, lead)
  {
    var x, t, q := Canon(v.members[ks[0]]), CanonMembers(v, ks[1..], SEPARATOR), Quoted(ks[0]);
    CanonItemsSpell(ks[0]);
    NilLeft(x + t);
    NilLeft([COLON] + (x + t));
    NilLeft(q + ([COLON] + (x + t)));
    NilLeft(lead + (q + ([COLON] + (x + t))));
    Assoc([COLON], x, t);
    Assoc(q, [COLON] + x, t);
  }

  /** The tree nests exactly as deep as the value. */
  lemma {:induction false} CanonCstDepth(v: Value, n: int)
    requires NumbersValid(v)
    ensures CstDepth(CanonCst(v), n) <==> DepthAtMost(v, n)
    decreases v, 1, 0
  {
    match v
    case Arr(es) =>
      CanonElemsDepth(es, n - 1);
    case Obj(m) =>
      CanonMembersDepth(v, SortedKeys(m.Keys), n - 1);
    case _ =>
  }

  lemma {:induction false} CanonElemsDepth(es: seq<Value>, n: int)
    requires forall i | 0 <= i < |es| :: NumbersValid(es[i])
    ensures ElemsDepth(CanonElemsCst(es), n) <==> forall e | e in es :: DepthAtMost(e, n)
    decreases es, 0, 0
  {
    if es != [] {
      CanonCstDepth(es[0], n);
      CanonElemsDepth(es[1..], n);
      assert forall e :: e in es <==> e == es[0] || e in es[1..];
    }
  }

  lemma {:induction false} CanonMembersDepth(v: Value, ks: seq<Text>, n: int)
    requires v.Obj? && NumbersValid(v) && forall k | k in ks :: k in v.members
    ensures MembersDepth(CanonMembersCst(v, ks), n) <==> forall k | k in ks :: DepthAtMost(v.members[k], n)
    decreases v, 0, |ks|
  {
    if ks != [] {
      assert ks[0] in ks;
      CanonCstDepth(v.members[ks[0]], n);
      CanonMembersDepth(v, ks[1..], n);
      assert forall k :: k in ks <==> k == ks[0] || k in ks[1..];
    }
  }

  // ---- The laws ----------------------------------------------------------------------

  /** What the decoder accepts satisfies the canonicalizer's preconditions. */
  lemma AcceptedIsSerializable(data: ByteString)
    requires Strict(data).Ok?
    ensures NumbersValid(Strict(data).value) && DepthAtMost(Strict(data).value, MAX_DEPTH)
  {
    var doc := AcceptedIsAdmissible(data);
    MeaningIsSerializable(doc.value, MAX_DEPTH);
  }

  ghost predicate Serializable(v: Value, n: int) {
    NumbersValid(v) && DepthAtMost(v, n)
  }

  lemma {:induction false} MeaningIsSerializable(c: Cst, n: int)
    requires Wf(c) && CstDepth(c, n)
    ensures Serializable(Meaning(c), n)
    decreases c
  {
    match c
    case CArray(es, _) =>
      ElemsSerializable(es, n - 1);
      assert forall i | 0 <= i < |ElemsMeaning(es)| :: Serializable(ElemsMeaning(es)[i], n - 1);
    case CObject(ms, _) =>
      MembersSerializable(ms, n - 1, map[]);
      assert forall k | k in MembersMeaning(ms, map[]) :: Serializable(MembersMeaning(ms, map[])[k], n - 1);
    case _ =>
  }

  lemma {:induction false} ElemsSerializable(es: Elems, n: int)
    requires WfElems(es) && ElemsDepth(es, n)
    ensures forall i | 0 <= i < |ElemsMeaning(es)| :: Serializable(ElemsMeaning(es)[i], n)
    decreases es
  {
    if es.Elem? {
      MeaningIsSerializable(es.v, n);
      ElemsSerializable(es.tail, n);
    }
  }

  lemma {:induction false} MembersSerializable(ms: Members, n: int, acc: map<Text, Value>)
    requires WfMembers(ms) && MembersDepth(ms, n)
    requires forall k | k in acc :: Serializable(acc[k], n)
    ensures forall k | k in MembersMeaning(ms, acc) :: Serializable(MembersMeaning(ms, acc)[k], n)
    decreases ms
  {
    if ms.Member? {
      MeaningIsSerializable(ms.v, n);
      MembersSerializable(ms.tail, n, acc[StringMeaning(ms.key) := Meaning(ms.v)]);
    }
  }

  /** Round trip: strict decoding of the canonical form returns the very tree exactly when
      its numbers are lexemes of the grammar and it nests at most 64 deep. */
  lemma RoundTrips(v: Value)
    ensures Strict(Canon(v)) == Ok(v) <==> NumbersValid(v) && DepthAtMost(v, MAX_DEPTH)
  {
    if NumbersValid(v) && DepthAtMost(v, MAX_DEPTH) {
      CanonCstPresents(v);
      CanonCstDepth(v, MAX_DEPTH);
      var doc := Document([], CanonCst(v), []);
      AcceptsAdmissible(doc);
      assert DocumentText(doc) == Canon(v);
    } else if Strict(Canon(v)) == Ok(v) {
      AcceptedIsSerializable(Canon(v));
    }
  }

  /** Levels of container nesting. */
  ghost function Height(c: Cst): nat {
    match c
    case CArray(es, _) => 1 + ElemsHeight(es)
    case CObject(ms, _) => 1 + MembersHeight(ms)
    case _ => 0
  }

  ghost function ElemsHeight(es: Elems): nat {
    if es.NoElem? then 0 else Max(Height(es.v), ElemsHeight(es.tail))
  }

  ghost function MembersHeight(ms: Members): nat {
    if ms.NoMember? then 0 else Max(Height(ms.v), MembersHeight(ms.tail))
  }

  function Max(a: nat, b: nat): nat { if a < b then b else a }

  lemma {:induction false} HeightBounds(c: Cst, n: int)
    requires Height(c) <= n
    ensures CstDepth(c, n)
    decreases c
  {
    match c
    case CArray(es, _) => ElemsHeightBounds(es, n - 1);
    case CObject(ms, _) => MembersHeightBounds(ms, n - 1);
    case _ =>
  }

  lemma {:induction false} ElemsHeightBounds(es: Elems, n: int)
    requires ElemsHeight(es) <= n
    ensures ElemsDepth(es, n)
    decreases es
  {
    if es.Elem? {
      HeightBounds(es.v, n);
      ElemsHeightBounds(es.tail, n);
    }
  }

  lemma {:induction false} MembersHeightBounds(ms: Members, n: int)
    requires MembersHeight(ms) <= n
    ensures MembersDepth(ms, n)
    decreases ms
  {
    if ms.Member? {
      HeightBounds(ms.v, n);
      MembersHeightBounds(ms.tail, n);
    }
  }

  /** Read with a large enough cap, a canonical form yields its value and what follows it. */
  lemma CanonReads(v: Value, r: ByteString, cap: nat)
    requires NumbersValid(v) && EndsNumber(r) && Height(CanonCst(v)) <= cap
    ensures ParseValue(Reader(Canon(v) + r, TopValue, []), 1, cap) == Ok((v, Reader(r, TopValue, [])))
  {
    CanonCstPresents(v);
    HeightBounds(CanonCst(v), cap);
    var t := Canon(v) + r;
    assert [] + t == t && Lead(TopValue) + t == t;
    ValueComplete(CanonCst(v), Reader(t, TopValue, []), [], [], r, 1, cap);
  }

  /** Injectivity with any continuation: canonical bytes followed by something that cannot
      extend a number determine both the value, of any shape and depth, and the rest. */
  lemma CanonInjective(v1: Value, s1: ByteString, v2: Value, s2: ByteString)
    requires NumbersValid(v1) && NumbersValid(v2) && EndsNumber(s1) && EndsNumber(s2)
    requires Canon(v1) + s1 == Canon(v2) + s2
    ensures v1 == v2 && s1 == s2
  {
    var cap := Max(Height(CanonCst(v1)), Height(CanonCst(v2)));
    CanonReads(v1, s1, cap);
    CanonReads(v2, s2, cap);
  }

  /** Re-canonicalizing what was decoded from a canonical form changes no byte, and
      canonical bytes are equal exactly for equal trees. */
  lemma CanonDecidesEquality(v1: Value, v2: Value)
    requires NumbersValid(v1) && NumbersValid(v2)
    ensures Canon(v1) == Canon(v2) <==> v1 == v2
  {
    if Canon(v1) == Canon(v2) {
      CanonInjective(v1, [], v2, []);
    }
  }
}
