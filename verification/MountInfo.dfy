/** The Linux mount table: internal/durability/mountinfo.go. The table is read as its
    decoded characters. */
module MountInfo {

  datatype Option<+T> = None | Some(value: T)

  // ---- Device numbers ----------------------------------------------------------------

  /** linuxDeviceNumbers; the conversions to 32 bits drop the high bits. */
  function DeviceNumbers(device: bv64): (bv32, bv32) {
    var major := (((device >> 8) & 0xfff) as bv32) | ((((device >> 32) & !0xfff) & 0xffff_ffff) as bv32);
    var minor := ((device & 0xff) as bv32) | ((((device >> 12) & !0xff) & 0xffff_ffff) as bv32);
    (major, minor)
  }

  /** The device number with a given major and minor. */
  function Device(major: bv32, minor: bv32): bv64 {
    (((major & 0xfff) as bv64) << 8) | (((major & !0xfff) as bv64) << 32)
    | ((minor & 0xff) as bv64) | (((minor & !0xff) as bv64) << 12)
  }

  /** The split loses nothing and reaches every pair. */
  lemma DeviceBijection(device: bv64, major: bv32, minor: bv32)
    ensures var (ma, mi) := DeviceNumbers(device); Device(ma, mi) == device
    ensures DeviceNumbers(Device(major, minor)) == (major, minor)
  {
  }

  /** Which bits are whose: of the major number, the low twelve from bit 8 and the rest from
      bit 44; of the minor number, the low eight from bit 0 and the rest from bit 20. */
  lemma DeviceBits(device: bv64)
    ensures var (major, minor) := DeviceNumbers(device);
      && (major & 0xfff) as bv64 == (device >> 8) & 0xfff && (major >> 12) as bv64 == device >> 44
      && (minor & 0xff) as bv64 == device & 0xff && (minor >> 8) as bv64 == (device >> 20) & 0xff_ffff
  {
  }

  // ---- Reading the table -------------------------------------------------------------

  /** unicode.IsSpace. */
  predicate IsSpace(c: char) {
    '\t' <= c <= '\r' || c == ' ' || c == '\U{85}' || c == '\U{A0}' || c == '\U{1680}'
    || '\U{2000}' <= c <= '\U{200A}' || c == '\U{2028}' || c == '\U{2029}' || c == '\U{202F}'
    || c == '\U{205F}' || c == '\U{3000}'
  }

  const WHITE_SPACE: string :=
    "\t\n\U{0B}\U{0C}\r \U{85}\U{A0}\U{1680}\U{2000}\U{2001}\U{2002}\U{2003}\U{2004}\U{2005}\U{2006}\U{2007}\U{2008}\U{2009}\U{200A}\U{2028}\U{2029}\U{202F}\U{205F}\U{3000}"

  /** The characters with Unicode's White_Space property, one by one. */
  lemma SpaceTable(c: char)
    ensures IsSpace(c) <==> c in WHITE_SPACE
  {
    var w := WHITE_SPACE;
    assert |w| == 25;
    if IsSpace(c) {
      assert c == w[0] || c == w[1] || c == w[2] || c == w[3] || c == w[4] || c == w[5] || c == w[6] || c == w[7]
          || c == w[8] || c == w[9] || c == w[10] || c == w[11] || c == w[12] || c == w[13] || c == w[14]
          || c == w[15] || c == w[16] || c == w[17] || c == w[18] || c == w[19] || c == w[20] || c == w[21]
          || c == w[22] || c == w[23] || c == w[24];
    }
  }

  /** strings.Fields, with the field being read. */
  function FieldsFrom(word: string, s: string): seq<string>
    decreases |s|
  {
    var done := if word == "" then [] else [word];
    if s == "" then done
    else if IsSpace(s[0]) then done + FieldsFrom("", s[1..])
    else FieldsFrom(word + [s[0]], s[1..])
  }

  function Fields(s: string): seq<string> { FieldsFrom("", s) }

  /** bytes.Split on newlines, with the line being read. */
  function LinesFrom(line: string, s: string): seq<string>
    decreases |s|
  {
    if s == "" then [line]
    else if s[0] == '\n' then [line] + LinesFrom("", s[1..])
    else LinesFrom(line + [s[0]], s[1..])
  }

  /** strconv.FormatUint in base 10. */
  function Decimal(n: nat): (s: string)
    ensures |s| > 0 && forall i | 0 <= i < |s| :: '0' <= s[i] <= '9'
  {
    if n < 10 then ['0' + n as char] else Decimal(n / 10) + ['0' + (n % 10) as char]
  }

  function DeviceField(major: nat, minor: nat): string {
    Decimal(major) + ":" + Decimal(minor)
  }

  /** The field after the first lone dash at or after index i. */
  function TypeFrom(fields: seq<string>, i: nat): Option<string>
    decreases |fields| - i
  {
    if i + 1 >= |fields| then None
    else if fields[i] == "-" then Some(fields[i + 1])
    else TypeFrom(fields, i + 1)
  }

  function LineType(line: string, want: string): Option<string> {
    var fields := Fields(line);
    if |fields| < 8 || fields[2] != want then None else TypeFrom(fields, 6)
  }

  function FirstType(lines: seq<string>, want: string): string {
    if lines == [] then ""
    else
      match LineType(lines[0], want)
      case Some(t) => t
      case None => FirstType(lines[1..], want)
  }

  method MountTypeForDevice(mountinfo: string, major: nat, minor: nat) returns (name: string)
    ensures name == FirstType(LinesFrom("", mountinfo), DeviceField(major, minor))
  {
    var want := Decimal(major) + ":" + Decimal(minor);
    var lines := LinesFrom("", mountinfo);
    for l := 0 to |lines|
      invariant FirstType(lines, want) == FirstType(lines[l..], want)
    {
      var fields := Fields(lines[l]);
      if |fields| < 8 || fields[2] != want { continue; }
      var index := 6;
      while index < |fields| - 1
        invariant 6 <= index
        invariant TypeFrom(fields, 6) == TypeFrom(fields, index)
      {
        if fields[index] == "-" { return fields[index + 1]; }
        index := index + 1;
      }
    }
    name := "";
  }

  // ---- Rendered tables ---------------------------------------------------------------

  /** A line of the table: any number of optional fields before the dash, and after the
      type whatever the kernel writes. */
  datatype Mount = Mount(
    id: string, parent: string, major: nat, minor: nat, root: string, point: string, options: string,
    optional: seq<string>, fstype: string, rest: string)

  predicate IsWord(s: string) {
    s != "" && forall i | 0 <= i < |s| :: !IsSpace(s[i])
  }

  /** A line as the kernel writes it. Names are not empty and hold no newline; the kernel
      escapes a space, a tab and a newline in them, and leaves any other character. */
  predicate WfMount(m: Mount) {
    && IsWord(m.id) && IsWord(m.parent) && IsWord(m.fstype)
    && (forall i | 0 <= i < |m.optional| :: IsWord(m.optional[i]) && m.optional[i] != "-")
    && Fields(m.root) != [] && Fields(m.point) != [] && Fields(m.options) != []
    && '\n' !in m.root && '\n' !in m.point && '\n' !in m.options && '\n' !in m.rest
  }

  /** The names of a mount as strings.Fields cuts them: one word each unless a name holds
      white space the kernel does not escape. */
  function Names(m: Mount): (r: seq<string>)
    ensures WfMount(m) ==> |r| >= 3
  {
    Fields(m.root) + (Fields(m.point) + Fields(m.options))
  }

  /** The pieces of names that the split pushes past field 5, where the scan for the dash
      begins. */
  function Surplus(m: Mount): seq<string>
    requires WfMount(m)
  {
    Names(m)[3..]
  }

  /** Where the first lone dash stands; the length if there is none. */
  function FirstDash(fields: seq<string>): (j: nat)
    ensures j <= |fields| && (j < |fields| ==> fields[j] == "-")
    ensures forall i | 0 <= i < j :: fields[i] != "-"
  {
    if fields == [] || fields[0] == "-" then 0 else 1 + FirstDash(fields[1..])
  }

  /** A surplus piece of a name is a lone dash, and the word after it is not the type. */
  predicate Misleading(m: Mount)
    requires WfMount(m)
  {
    var j := FirstDash(Surplus(m));
    j < |Surplus(m)| && (Surplus(m) + m.optional + ["-"])[j + 1] != m.fstype
  }

  function Columns(m: Mount): seq<string> {
    [m.id, m.parent, DeviceField(m.major, m.minor), m.root, m.point, m.options] + m.optional + ["-", m.fstype]
  }

  /** Columns with a space after each. */
  function Spaced(columns: seq<string>): string {
    if columns == [] then "" else columns[0] + (" " + Spaced(columns[1..]))
  }

  function RenderLine(m: Mount): string { Spaced(Columns(m)) + m.rest }

  function RenderTable(ms: seq<Mount>): string {
    if ms == [] then "" else RenderLine(ms[0]) + ("\n" + RenderTable(ms[1..]))
  }

  /** The first mount of a device. */
  function FirstMount(ms: seq<Mount>, major: nat, minor: nat): (r: Option<Mount>)
    ensures r.None? <==> forall m | m in ms :: m.major != major || m.minor != minor
    ensures r.Some? ==> exists i ::
      (0 <= i < |ms| && ms[i] == r.value && r.value.major == major && r.value.minor == minor
       && forall j | 0 <= j < i :: ms[j].major != major || ms[j].minor != minor)
  {
    if ms == [] then None
    else if ms[0].major == major && ms[0].minor == minor then Some(ms[0])
    else FirstMount(ms[1..], major, minor)
  }

  // ---- How a line is cut -------------------------------------------------------------

  function Split(columns: seq<string>): seq<string> {
    if columns == [] then [] else Fields(columns[0]) + Split(columns[1..])
  }

  lemma {:induction false} FieldsAtSpace(word: string, w: string, c: char, s: string)
    requires IsSpace(c)
    ensures FieldsFrom(word, w + ([c] + s)) == FieldsFrom(word, w) + Fields(s)
    decreases |w|
  {
    var t := w + ([c] + s);
    if w == "" {
      assert t == [c] + s && ([c] + s)[1..] == s;
    } else {
      assert t[1..] == w[1..] + ([c] + s);
      FieldsAtSpace(if IsSpace(w[0]) then "" else word + [w[0]], w[1..], c, s);
    }
  }

  lemma {:induction false} FieldsOfSpaced(columns: seq<string>, s: string)
    ensures Fields(Spaced(columns) + s) == Split(columns) + Fields(s)
  {
    if columns == [] {
      assert Spaced(columns) + s == s;
    } else {
      var t := Spaced(columns[1..]) + s;
      assert Spaced(columns) + s == columns[0] + (" " + t);
      FieldsAtSpace("", columns[0], ' ', t);
      FieldsOfSpaced(columns[1..], s);
    }
  }

  lemma {:induction false} FieldsOfWord(word: string, w: string)
    requires word + w != "" && forall i | 0 <= i < |w| :: !IsSpace(w[i])
    ensures FieldsFrom(word, w) == [word + w]
    decreases |w|
  {
    if w == "" {
      assert word + w == word;
    } else {
      assert word + [w[0]] + w[1..] == word + w;
      FieldsOfWord(word + [w[0]], w[1..]);
    }
  }

  lemma {:induction false} SplitWords(words: seq<string>)
    requires forall i | 0 <= i < |words| :: IsWord(words[i])
    ensures Split(words) == words
  {
    if words != [] {
      assert "" + words[0] == words[0];
      FieldsOfWord("", words[0]);
      SplitWords(words[1..]);
    }
  }

  lemma {:induction false} SplitConcat(a: seq<string>, b: seq<string>)
    ensures Split(a + b) == Split(a) + Split(b)
  {
    if a == [] {
      assert a + b == b;
    } else {
      assert (a + b)[1..] == a[1..] + b;
      SplitConcat(a[1..], b);
    }
  }

  /** The fields of a rendered line. */
  function LineFields(m: Mount): seq<string> {
    [m.id, m.parent, DeviceField(m.major, m.minor)] + (Names(m) + (m.optional + ["-", m.fstype])) + Fields(m.rest)
  }

  lemma SplitNames(m: Mount)
    ensures Split([m.root, m.point, m.options]) == Names(m)
  {
    var names := [m.root, m.point, m.options];
    assert names[1..] == [m.point, m.options] && names[1..][1..] == [m.options];
    assert Split([m.options]) == Fields(m.options);
  }

  lemma FieldsOfLine(m: Mount)
    requires WfMount(m)
    ensures Fields(RenderLine(m)) == LineFields(m)
  {
    var head, names := [m.id, m.parent, DeviceField(m.major, m.minor)], [m.root, m.point, m.options];
    var last := m.optional + ["-", m.fstype];
    assert IsWord(DeviceField(m.major, m.minor)) && IsWord("-");
    FieldsOfSpaced(Columns(m), m.rest);
    assert Columns(m) == head + (names + last);
    SplitConcat(head, names + last);
    SplitConcat(names, last);
    SplitWords(head);
    SplitNames(m);
    SplitWords(last);
  }

  lemma {:induction false} LinesOfLine(line: string, w: string, s: string)
    requires '\n' !in w
    ensures LinesFrom(line, w + s) == LinesFrom(line + w, s)
    decreases |w|
  {
    if w == "" {
      assert w + s == s && line + w == line;
    } else {
      assert (w + s)[1..] == w[1..] + s && line + [w[0]] + w[1..] == line + w;
      LinesOfLine(line + [w[0]], w[1..], s);
    }
  }

  lemma {:induction false} SpacedOneLine(columns: seq<string>)
    requires forall i | 0 <= i < |columns| :: '\n' !in columns[i]
    ensures '\n' !in Spaced(columns)
  {
    if columns != [] {
      SpacedOneLine(columns[1..]);
    }
  }

  lemma LineHasNoNewline(m: Mount)
    requires WfMount(m)
    ensures '\n' !in RenderLine(m)
  {
    assert IsWord(DeviceField(m.major, m.minor));
    assert forall w: string | IsWord(w) :: '\n' !in w;
    SpacedOneLine(Columns(m));
  }

  /** A numeral of base ten: digits, and no leading zero but that of zero itself. */
  predicate IsNumeral(s: string) {
    s != "" && (forall i | 0 <= i < |s| :: '0' <= s[i] <= '9') && (s[0] == '0' ==> s == "0")
  }

  /** What its digits are worth. */
  function NumberOf(s: string): int
    requires forall i | 0 <= i < |s| :: '0' <= s[i] <= '9'
  {
    if s == "" then 0 else 10 * NumberOf(s[..|s| - 1]) + (s[|s| - 1] as int - '0' as int)
  }

  lemma {:induction false} DecimalCounts(n: nat)
    ensures IsNumeral(Decimal(n)) && NumberOf(Decimal(n)) == n
    ensures n > 0 ==> Decimal(n)[0] != '0'
  {
    var s := Decimal(n);
    if n < 10 {
      assert s[..|s| - 1] == "";
    } else {
      DecimalCounts(n / 10);
      assert s[..|s| - 1] == Decimal(n / 10) && s[0] == Decimal(n / 10)[0];
      assert s[|s| - 1] as int - '0' as int == n % 10;
    }
  }

  /** The number of a device is printed as its one decimal numeral. */
  lemma DecimalIsTheNumeral(s: string, n: nat)
    ensures s == Decimal(n) <==> IsNumeral(s) && NumberOf(s) == n
  {
    DecimalCounts(n);
    if IsNumeral(s) && NumberOf(s) == n {
      NumeralUnique(s);
    }
  }

  lemma {:induction false} NumeralUnique(s: string)
    requires IsNumeral(s)
    ensures NumberOf(s) >= 0 && s == Decimal(NumberOf(s))
  {
    var n := |s| - 1;
    if n == 0 {
      assert s[..0] == "" && NumberOf(s[..0]) == 0;
      assert s == [s[0]];
    } else {
      NumeralInit(s);
      NumeralUnique(s[..n]);
      assert Decimal(0) == "0";
      DecimalSnoc(NumberOf(s[..n]), s[n] as int - '0' as int);
    }
  }

  lemma NumeralInit(s: string)
    requires IsNumeral(s) && |s| > 1
    ensures var t := s[..|s| - 1]; IsNumeral(t) && t != "0" && s == t + [s[|s| - 1]]
  {
    assert s[..|s| - 1][0] == s[0];
  }

  lemma DecimalSnoc(q: nat, d: nat)
    requires q > 0 && d < 10
    ensures Decimal(10 * q + d) == Decimal(q) + ['0' + d as char]
  {
    assert (10 * q + d) / 10 == q && (10 * q + d) % 10 == d;
  }

  /** Decimal numerals determine their number. */
  lemma {:induction false} DecimalInjective(m: nat, n: nat)
    requires Decimal(m) == Decimal(n)
    ensures m == n
  {
    var s := Decimal(m);
    assert m >= 10 ==> |s| == |Decimal(m / 10)| + 1;
    assert n >= 10 ==> |s| == |Decimal(n / 10)| + 1;
    if m >= 10 {
      assert Decimal(m / 10) == s[..|s| - 1] == Decimal(n / 10);
      DecimalInjective(m / 10, n / 10);
      assert s[|s| - 1] == '0' + (m % 10) as char == '0' + (n % 10) as char;
    }
  }

  /** The device field determines major and minor. */
  lemma DeviceFieldInjective(ma: nat, mi: nat, mb: nat, mj: nat)
    ensures DeviceField(ma, mi) == DeviceField(mb, mj) <==> ma == mb && mi == mj
  {
    if DeviceField(ma, mi) == DeviceField(mb, mj) {
      assert DeviceField(ma, mi) == Decimal(ma) + (":" + Decimal(mi));
      assert DeviceField(mb, mj) == Decimal(mb) + (":" + Decimal(mj));
      ColonSplits(Decimal(ma), Decimal(mi), Decimal(mb), Decimal(mj));
      DecimalInjective(ma, mb);
      DecimalInjective(mi, mj);
    }
  }

  lemma {:induction false} ColonSplits(a: string, x: string, b: string, y: string)
    requires a + (":" + x) == b + (":" + y)
    requires (forall i | 0 <= i < |a| :: a[i] != ':') && (forall i | 0 <= i < |b| :: b[i] != ':')
    ensures a == b && x == y
  {
    var s := a + (":" + x);
    assert s[0] == (if a == "" then ':' else a[0]) == (if b == "" then ':' else b[0]);
    if a == "" {
      assert s[1..] == x && s[1..] == y;
    } else {
      assert s[1..] == a[1..] + (":" + x) && s[1..] == b[1..] + (":" + y);
      ColonSplits(a[1..], x, b[1..], y);
      assert a == [a[0]] + a[1..] && b == [b[0]] + b[1..];
    }
  }

  lemma {:induction false} DashFound(fields: seq<string>, i: nat, dash: nat)
    requires i <= dash && dash + 1 < |fields| && fields[dash] == "-"
    requires forall j | i <= j < dash :: fields[j] != "-"
    ensures TypeFrom(fields, i) == Some(fields[dash + 1])
    decreases dash - i
  {
    if i < dash {
      DashFound(fields, i + 1, dash);
    }
  }

  /** What the scan for the dash meets. */
  function Scanned(m: Mount): seq<string>
    requires WfMount(m)
  {
    Surplus(m) + (m.optional + ["-", m.fstype])
  }

  /** Where the scan stops. */
  function Stop(m: Mount): (j: nat)
    requires WfMount(m)
    ensures j + 1 < |Scanned(m)|
  {
    var j := FirstDash(Surplus(m));
    if j < |Surplus(m)| then j else |Surplus(m)| + |m.optional|
  }

  lemma DashAt(m: Mount)
    requires WfMount(m)
    ensures Scanned(m)[Stop(m)] == "-" && (forall i | 0 <= i < Stop(m) :: Scanned(m)[i] != "-")
    ensures Scanned(m)[Stop(m) + 1] == m.fstype <==> !Misleading(m)
  {
    var t, n := Scanned(m), |Surplus(m)|;
    assert forall i | 0 <= i < n :: t[i] == Surplus(m)[i];
    assert forall i | n <= i < n + |m.optional| :: t[i] == m.optional[i - n];
    assert t[n + |m.optional|] == "-" && t[n + |m.optional| + 1] == m.fstype;
    assert forall i | 0 <= i < |t| - 1 :: t[i] == (Surplus(m) + m.optional + ["-"])[i];
  }

  /** The field of a device: its two numerals with a colon between them. */
  lemma DeviceFieldText(a: string, b: string)
    requires IsNumeral(a) && IsNumeral(b)
    ensures NumberOf(a) >= 0 && NumberOf(b) >= 0
    ensures DeviceField(NumberOf(a), NumberOf(b)) == a + ":" + b
  {
    NumeralUnique(a);
    NumeralUnique(b);
  }

  /** The order of a line in proc(5): its ten or more columns, a space after each. */
  lemma ColumnOrder(m: Mount, rest: string)
    requires rest == Spaced(m.optional + ["-", m.fstype]) + m.rest
    ensures RenderLine(m)
         == (m.id + " ") + ((m.parent + " ") + ((DeviceField(m.major, m.minor) + " ")
            + ((m.root + " ") + ((m.point + " ") + ((m.options + " ") + rest)))))
  {
    var last := m.optional + ["-", m.fstype];
    var d := DeviceField(m.major, m.minor);
    assert Columns(m) == [m.id] + ([m.parent] + ([d] + ([m.root] + ([m.point] + ([m.options] + last)))));
    SpacedStep(m.id, [m.parent] + ([d] + ([m.root] + ([m.point] + ([m.options] + last)))), m.rest);
    SpacedStep(m.parent, [d] + ([m.root] + ([m.point] + ([m.options] + last))), m.rest);
    SpacedStep(d, [m.root] + ([m.point] + ([m.options] + last)), m.rest);
    SpacedStep(m.root, [m.point] + ([m.options] + last), m.rest);
    SpacedStep(m.point, [m.options] + last, m.rest);
    SpacedStep(m.options, last, m.rest);
  }

  lemma SpacedStep(w: string, columns: seq<string>, rest: string)
    ensures Spaced([w] + columns) + rest == (w + " ") + (Spaced(columns) + rest)
  {
    assert ([w] + columns)[1..] == columns;
  }

  /** A rendered line answers for its own device and no other, and answers with its type
      exactly when it is not misleading. */
  lemma LineOfMount(m: Mount, major: nat, minor: nat)
    requires WfMount(m)
    ensures var t := LineType(RenderLine(m), DeviceField(major, minor));
      && (t.Some? <==> m.major == major && m.minor == minor)
      && (t.Some? ==> t.value == Scanned(m)[Stop(m) + 1])
    ensures Scanned(m)[Stop(m) + 1] == m.fstype <==> !Misleading(m)
  {
    FieldsOfLine(m);
    DeviceFieldInjective(m.major, m.minor, major, minor);
    DashAt(m);
    var fields, t := LineFields(m), Scanned(m);
    assert fields[2] == DeviceField(m.major, m.minor);
    assert fields[6..][..|t|] == t;
    assert forall i | 6 <= i < 6 + |t| :: fields[i] == t[i - 6];
    DashFound(fields, 6, 6 + Stop(m));
  }

  lemma {:induction false} LookupReadsFirst(ms: seq<Mount>, major: nat, minor: nat)
    requires forall i | 0 <= i < |ms| :: WfMount(ms[i])
    ensures var want, first := DeviceField(major, minor), FirstMount(ms, major, minor);
      var name := FirstType(LinesFrom("", RenderTable(ms)), want);
      if first.None? then name == "" else LineType(RenderLine(first.value), want) == Some(name)
  {
    var want := DeviceField(major, minor);
    if ms == [] {
      assert LineType("", want) == None;
      assert [""][1..] == [];
    } else {
      var line, rest := RenderLine(ms[0]), RenderTable(ms[1..]);
      LineOfMount(ms[0], major, minor);
      LineHasNoNewline(ms[0]);
      LinesOfLine("", line, "\n" + rest);
      assert "" + line == line && ("\n" + rest)[1..] == rest;
      var lines := LinesFrom("", RenderTable(ms));
      assert lines == [line] + LinesFrom("", rest) && lines[1..] == LinesFrom("", rest);
      LookupReadsFirst(ms[1..], major, minor);
    }
  }

  /** Over any rendered table the lookup returns the empty string when the device has no
      mount, and the type of its first mount exactly when that line is not misleading. */
  lemma LookupFindsFirst(ms: seq<Mount>, major: nat, minor: nat)
    requires forall i | 0 <= i < |ms| :: WfMount(ms[i])
    ensures var first := FirstMount(ms, major, minor);
      var name := FirstType(LinesFrom("", RenderTable(ms)), DeviceField(major, minor));
      if first.None? then name == "" else (name == first.value.fstype <==> !Misleading(first.value))
  {
    LookupReadsFirst(ms, major, minor);
    var first := FirstMount(ms, major, minor);
    if first.Some? {
      LineOfMount(first.value, major, minor);
    }
  }

  /** No line is misleading whose names hold no white space. */
  lemma PlainNamesNeverMislead(m: Mount)
    requires WfMount(m) && IsWord(m.root) && IsWord(m.point) && IsWord(m.options)
    ensures Names(m) == [m.root, m.point, m.options] && !Misleading(m)
  {
    SplitWords([m.root, m.point, m.options]);
    SplitNames(m);
  }

  lemma DashInPoint(m: Mount, a: string, b: string, c: string)
    requires WfMount(m) && |Fields(m.root)| == 1 && Fields(m.point) == [a, b, "-", c] && c != m.fstype
    ensures Misleading(m) && Scanned(m)[Stop(m) + 1] == c
  {
    assert Surplus(m) == ["-", c] + Fields(m.options);
  }

  const NBSP: string := ['\U{A0}']

  /** The kernel escapes no U+00A0: a mount point can hold one on both sides of a dash. Its
      line is misread, and the lookup answers with a part of its name for the type. */
  lemma NoBreakSpaceMisleads(m: Mount)
    requires m.point == "/a" + (NBSP + ("b" + (NBSP + ("-" + (NBSP + "c")))))
    requires m == Mount("1", "1", 8, 1, "/", m.point, "rw", [], "ext4", "")
    ensures WfMount(m) && Misleading(m)
    ensures FirstType(LinesFrom("", RenderTable([m])), DeviceField(8, 1)) == "c"
  {
    NbspIsMount(m);
    NbspFields();
    WordFields("/");
    DashInPoint(m, "/a", "b", "c");
    LookupReadsFirst([m], 8, 1);
    LineOfMount(m, 8, 1);
  }

  lemma NbspIsMount(m: Mount)
    requires m.point == "/a" + (NBSP + ("b" + (NBSP + ("-" + (NBSP + "c")))))
    requires m == Mount("1", "1", 8, 1, "/", m.point, "rw", [], "ext4", "")
    ensures WfMount(m)
  {
    NbspFields();
    PointHasNoNewline();
    PlainMount(m);
  }

  lemma PlainMount(m: Mount)
    requires IsWord(m.id) && IsWord(m.parent) && IsWord(m.fstype) && IsWord(m.root) && IsWord(m.options)
    requires m.optional == [] && m.rest == "" && Fields(m.point) != [] && '\n' !in m.point
    ensures WfMount(m)
  {
    WordFields(m.root);
    WordFields(m.options);
  }

  lemma PointHasNoNewline()
    ensures '\n' !in "/a" + (NBSP + ("b" + (NBSP + ("-" + (NBSP + "c")))))
  {
    NoNewline(NBSP, "c");
    NoNewline("-", NBSP + "c");
    NoNewline(NBSP, "-" + (NBSP + "c"));
    NoNewline("b", NBSP + ("-" + (NBSP + "c")));
    NoNewline(NBSP, "b" + (NBSP + ("-" + (NBSP + "c"))));
    NoNewline("/a", NBSP + ("b" + (NBSP + ("-" + (NBSP + "c")))));
  }

  lemma NoNewline(a: string, b: string)
    requires '\n' !in a && '\n' !in b
    ensures '\n' !in a + b
  {
  }

  lemma NbspFields()
    ensures Fields("/a" + (NBSP + ("b" + (NBSP + ("-" + (NBSP + "c")))))) == ["/a", "b", "-", "c"]
  {
    WordAtSpace("/a", "b" + (NBSP + ("-" + (NBSP + "c"))));
    WordAtSpace("b", "-" + (NBSP + "c"));
    WordAtSpace("-", "c");
    WordFields("c");
  }

  lemma WordFields(w: string)
    requires IsWord(w)
    ensures Fields(w) == [w]
  {
    assert "" + w == w;
    FieldsOfWord("", w);
  }

  lemma WordAtSpace(w: string, s: string)
    requires IsWord(w)
    ensures Fields(w + (NBSP + s)) == [w] + Fields(s)
  {
    FieldsAtSpace("", w, '\U{A0}', s);
    WordFields(w);
  }
}
