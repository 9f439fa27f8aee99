/** The canonical form in the terms of the grammar alone: the one JSON text of a value with
    no white space, members in UTF-16 order and every character in its canonical spelling
    (internal/contract/doc.go, canonical.go). */
module CanonicalText {
  import opened Utf8
  import opened Values
  import opened Grammar
  import opened Canonical
  import opened RoundTrip
  import Utf16

  // ---- Canonical trees ---------------------------------------------------------------

  predicate IsLowerHex(s: ByteString) {
    forall i | 0 <= i < |s| :: !(0x41 <= s[i] <= 0x46)
  }

  /** The characters with no raw spelling: the control characters and three separators. */
  predicate MustEscape(c: int) {
    c < 0x20 || c == 0x85 || c == 0x2028 || c == 0x2029
  }

  predicate CanonicalItem(it: Item)
    requires WfItem(it)
  {
    match it
    case Raw(c) => !HasLetter(c) && !MustEscape(c)
    case Short(letter) => letter != SLASH
    case Hex(digits) => !HasLetter(HexUnit(digits)) && MustEscape(HexUnit(digits)) && IsLowerHex(digits)
  }

  predicate CanonicalItems(items: seq<Item>)
    requires WfItems(items)
  {
    forall i | 0 <= i < |items| :: CanonicalItem(items[i])
  }

  predicate CanonicalCst(c: Cst)
    requires Wf(c)
  {
    match c
    case CString(items) => CanonicalItems(items)
    case CArray(es, close) => close == [] && CanonicalElems(es)
    case CObject(ms, close) => close == [] && CanonicalMembers(ms) && Ascending(Keys(ms))
    case _ => true
  }

  predicate CanonicalElems(es: Elems)
    requires WfElems(es)
  {
    es.Elem? ==> es.sep == [] && es.pre == [] && CanonicalCst(es.v) && CanonicalElems(es.tail)
  }

  predicate CanonicalMembers(ms: Members)
    requires WfMembers(ms)
  {
    ms.Member? ==>
      && ms.sep == [] && ms.pre == [] && ms.colon == [] && ms.before == []
      && CanonicalItems(ms.key) && CanonicalCst(ms.v) && CanonicalMembers(ms.tail)
  }

  /** The keys of an object in the order of its text. */
  function Keys(ms: Members): seq<Text>
    requires WfMembers(ms)
  {
    if ms.NoMember? then [] else [StringMeaning(ms.key)] + Keys(ms.tail)
  }

  /** Of any two keys the earlier is lexicographically smaller in UTF-16 code units. */
  predicate Ascending(ks: seq<Text>) {
    forall i, j | 0 <= i < j < |ks| :: Precedes(Utf16.Encode(ks[i]), Utf16.Encode(ks[j]))
  }

  predicate Precedes(a: Utf16.Units, b: Utf16.Units) {
    exists i: nat | i <= |a| :: Utf16.FirstDifference(a, b, i)
  }

  lemma PrecedesIsLess(a: Text, b: Text)
    ensures Precedes(Utf16.Encode(a), Utf16.Encode(b)) <==> Utf16.Less(a, b)
  {
    Utf16.CompareIsLexicographic(Utf16.Encode(a), Utf16.Encode(b));
  }

  lemma AscendingIsSorted(ks: seq<Text>)
    ensures Ascending(ks) <==> Sorted(ks)
  {
    forall i, j | 0 <= i < j < |ks|
      ensures Precedes(Utf16.Encode(ks[i]), Utf16.Encode(ks[j])) <==> Utf16.Less(ks[i], ks[j])
    {
      PrecedesIsLess(ks[i], ks[j]);
    }
  }

  // ---- A canonical tree is spelled by the canonical form ------------------------------

  /** The scalar of a canonical item. */
  lemma ItemIsEscape(it: Item) returns (c: Scalar)
    requires WfItem(it) && CanonicalItem(it)
    ensures ItemText(it) == Escape(c) && ItemUnits(it) == Utf16.ScalarUnits(c)
  {
    match it
    case Raw(r) =>
      c := r;
      EscapeChoice(c);
    case Short(letter) =>
      c := ShortValue(letter);
    case Hex(digits) =>
      c := HexUnit(digits);
      EscapeChoice(c);
      var s := [BACKSLASH, LOWER_U] + digits;
      assert s[2..] == digits;
      assert forall i | 2 <= i < 6 :: s[i] == digits[i - 2];
      UnicodeEscapeUnique(s, c);
      UnicodeEscapeUnique(Escape(c), c);
  }

  lemma {:induction false} ItemsAreEscapes(items: seq<Item>) returns (cs: Text)
    requires WfItems(items) && CanonicalItems(items)
    ensures ItemsText(items) == EscapeText(cs) && ItemsUnits(items) == Utf16.Encode(cs)
  {
    cs := [];
    if items != [] {
      var c := ItemIsEscape(items[0]);
      var tail := ItemsAreEscapes(items[1..]);
      cs := [c] + tail;
      assert cs[1..] == tail;
    }
  }

  lemma StringIsQuoted(items: seq<Item>)
    requires WfItems(items) && CanonicalItems(items)
    ensures StringText(items) == Quoted(StringMeaning(items))
  {
    var cs := ItemsAreEscapes(items);
    Utf16.DecodeInvertsEncode(cs);
  }

  lemma {:induction false} TreeIsCanon(c: Cst)
    requires Wf(c) && CanonicalCst(c)
    ensures CstText(c) == Canon(Meaning(c))
    decreases c
  {
    match c
    case CString(items) => StringIsQuoted(items);
    case CArray(es, close) =>
      ElemsAreCanon(es, []);
      NilLeft([RBRACKET]);
    case CObject(ms, close) =>
      ObjectIsCanon(ms);
      NilLeft([RBRACE]);
    case _ =>
  }

  lemma {:induction false} ElemsAreCanon(es: Elems, lead: ByteString)
    requires WfElems(es) && CanonicalElems(es)
    ensures ElemsText(es, lead) == CanonElems(ElemsMeaning(es), lead)
    decreases es
  {
    if es.Elem? {
      TreeIsCanon(es.v);
      ElemsAreCanon(es.tail, SEPARATOR);
      var t := CstText(es.v) + ElemsText(es.tail, SEPARATOR);
      NilLeft(t);
      NilLeft(lead + t);
      var vs := ElemsMeaning(es);
      assert vs[0] == Meaning(es.v) && vs[1..] == ElemsMeaning(es.tail);
    }
  }

  /** The map holds what the members say. */
  predicate Agrees(ms: Members, m: map<Text, Value>)
    requires WfMembers(ms)
  {
    ms.Member? ==>
      && StringMeaning(ms.key) in m && m[StringMeaning(ms.key)] == Meaning(ms.v) && Agrees(ms.tail, m)
  }

  lemma {:induction false} MeaningAgrees(ms: Members, acc: map<Text, Value>)
    requires WfMembers(ms) && Distinct(Keys(ms)) && forall k | k in Keys(ms) :: k !in acc
    ensures Agrees(ms, MembersMeaning(ms, acc))
    ensures forall k :: k in MembersMeaning(ms, acc) <==> k in acc || k in Keys(ms)
    ensures forall k | k in acc :: MembersMeaning(ms, acc)[k] == acc[k]
    decreases ms
  {
    if ms.Member? {
      var k, tail := StringMeaning(ms.key), Keys(ms.tail);
      var ks := Keys(ms);
      assert ks[0] == k && ks[1..] == tail;
      DistinctTail(ks);
      MeaningAgrees(ms.tail, acc[k := Meaning(ms.v)]);
    }
  }

  lemma DistinctTail(ks: seq<Text>)
    requires Distinct(ks) && ks != []
    ensures Distinct(ks[1..]) && ks[0] !in ks[1..]
    ensures forall k :: k in ks <==> k == ks[0] || k in ks[1..]
  {
    assert ks == [ks[0]] + ks[1..];
  }

  lemma {:induction false} AgreesOnKeys(ms: Members, m: map<Text, Value>)
    requires WfMembers(ms) && Agrees(ms, m)
    ensures forall k | k in Keys(ms) :: k in m
    decreases ms
  {
    if ms.Member? {
      AgreesOnKeys(ms.tail, m);
    }
  }

  lemma {:induction false} ObjectIsCanon(ms: Members)
    requires WfMembers(ms) && CanonicalMembers(ms) && Ascending(Keys(ms))
    ensures var v := Obj(MembersMeaning(ms, map[]));
      Canon(v) == [LBRACE] + (MembersText(ms, []) + [RBRACE])
    decreases ms, 1
  {
    var none: map<Text, Value> := map[];
    var m := MembersMeaning(ms, none);
    AscendingIsSorted(Keys(ms));
    SortedDistinct(Keys(ms));
    MeaningAgrees(ms, none);
    MembersAreCanon(ms, m, []);
    CanonOfSorted(m, Keys(ms));
  }

  lemma CanonOfSorted(m: map<Text, Value>, ks: seq<Text>)
    requires Sorted(ks) && forall k :: k in ks <==> k in m
    ensures Canon(Obj(m)) == [LBRACE] + (CanonMembers(Obj(m), ks, []) + [RBRACE])
  {
    SortedUnique(ks, SortedKeys(m.Keys));
  }

  lemma {:induction false} MembersAreCanon(ms: Members, m: map<Text, Value>, lead: ByteString)
    requires WfMembers(ms) && CanonicalMembers(ms) && Agrees(ms, m)
    ensures forall k | k in Keys(ms) :: k in m
    ensures MembersText(ms, lead) == CanonMembers(Obj(m), Keys(ms), lead)
    decreases ms, 0
  {
    AgreesOnKeys(ms, m);
    if ms.Member? {
      var k, ks := StringMeaning(ms.key), Keys(ms);
      assert ks[0] == k && ks[1..] == Keys(ms.tail);
      StringIsQuoted(ms.key);
      TreeIsCanon(ms.v);
      MembersAreCanon(ms.tail, m, SEPARATOR);
      MemberGlue(ms, Canon(m[k]), MembersText(ms.tail, SEPARATOR), lead);
    }
  }

  lemma MemberGlue(ms: Members, x: ByteString, t: ByteString, lead: ByteString)
    requires ms.Member? && ms.sep == [] && ms.pre == [] && ms.colon == [] && ms.before == []
    requires x == CstText(ms.v) && t == MembersText(ms.tail, SEPARATOR)
    ensures MembersText(ms, lead) == lead + ((StringText(ms.key) + ([COLON] + x)) + t)
  {
    var q := StringText(ms.key);
    NilLeft(x + t);
    NilLeft([COLON] + (x + t));
    NilLeft(q + ([COLON] + (x + t)));
    NilLeft(lead + (q + ([COLON] + (x + t))));
    Assoc([COLON], x, t);
    Assoc(q, [COLON] + x, t);
  }

  // ---- The tree of the canonical form is canonical -----------------------------------

  lemma CanonItemCanonical(c: Scalar)
    ensures WfItem(CanonItem(c)) && CanonicalItem(CanonItem(c))
  {
    CanonItemSpells(c);
    EscapeChoice(c);
    var it := CanonItem(c);
    if it.Hex? {
      UnicodeEscapeUnique(Escape(c), c);
      assert Escape(c) == [BACKSLASH, LOWER_U] + it.digits;
      assert Escape(c)[2..] == it.digits;
      assert forall i | 0 <= i < 4 :: it.digits[i] == Escape(c)[i + 2];
    }
  }

  lemma {:induction false} CanonItemsCanonical(cs: Text)
    ensures WfItems(CanonItems(cs)) && CanonicalItems(CanonItems(cs))
  {
    if cs != [] {
      CanonItemCanonical(cs[0]);
      CanonItemsCanonical(cs[1..]);
      assert CanonItems(cs) == [CanonItem(cs[0])] + CanonItems(cs[1..]);
    }
  }

  lemma {:induction false} CanonCstCanonical(v: Value)
    requires NumbersValid(v)
    ensures Wf(CanonCst(v)) && CanonicalCst(CanonCst(v))
    decreases v, 1, 0
  {
    CanonCstPresents(v);
    match v
    case Str(text) => CanonItemsCanonical(text);
    case Arr(es) => CanonElemsCanonical(es);
    case Obj(m) =>
      CanonMembersCanonical(v, SortedKeys(m.Keys));
      AscendingIsSorted(SortedKeys(m.Keys));
    case _ =>
  }

  lemma {:induction false} CanonElemsCanonical(es: seq<Value>)
    requires forall i | 0 <= i < |es| :: NumbersValid(es[i])
    ensures WfElems(CanonElemsCst(es)) && CanonicalElems(CanonElemsCst(es))
    decreases es, 0, 0
  {
    if es != [] {
      CanonCstCanonical(es[0]);
      CanonElemsCanonical(es[1..]);
    }
  }

  lemma {:induction false} CanonMembersCanonical(v: Value, ks: seq<Text>)
    requires v.Obj? && NumbersValid(v) && forall k | k in ks :: k in v.members
    ensures WfMembers(CanonMembersCst(v, ks)) && CanonicalMembers(CanonMembersCst(v, ks))
    ensures Keys(CanonMembersCst(v, ks)) == ks
    decreases v, 0, |ks|
  {
    if ks != [] {
      assert ks[0] in ks;
      CanonItemsCanonical(ks[0]);
      CanonItemsSpell(ks[0]);
      CanonCstCanonical(v.members[ks[0]]);
      CanonMembersCanonical(v, ks[1..]);
      assert ks == [ks[0]] + ks[1..];
    }
  }

  // ---- The characterization ----------------------------------------------------------

  ghost predicate CanonicalSpelling(c: Cst, v: Value, s: ByteString) {
    Wf(c) && CanonicalCst(c) && Meaning(c) == v && CstText(c) == s
  }

  /** The canonical form of a value is the text of a canonical tree that means it, and no
      other bytes are. */
  lemma CanonIsTheCanonicalText(v: Value, s: ByteString)
    ensures NumbersValid(v) && s == Canon(v) <==> exists c :: CanonicalSpelling(c, v, s)
  {
    if NumbersValid(v) && s == Canon(v) {
      CanonCstPresents(v);
      CanonCstCanonical(v);
      assert CanonicalSpelling(CanonCst(v), v, s);
    }
    forall c | CanonicalSpelling(c, v, s) ensures NumbersValid(v) && s == Canon(v) {
      TreeIsCanon(c);
      HeightBounds(c, Height(c));
      MeaningIsSerializable(c, Height(c));
    }
  }
}
