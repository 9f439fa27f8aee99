/** From values to spool and back: canonical forms appended through any history of opens,
    failures, crashes and host losses are read back as the values they came from. */
module EndToEnd {
  import opened Utf8
  import opened Values
  import opened Tokens
  import opened Decoder
  import opened Canonical
  import opened StrictDecode
  import opened RoundTrip
  import opened LineSafety
  import opened SpoolFile
  import opened SpoolLog
  import Durability
  import Spool
  import SpoolSafety
  import Concurrent = SpoolConcurrent

  /** The canonical form of a value the strict decoder can yield. */
  ghost predicate CanonicalRecord(r: ByteString) {
    exists v :: Serializable(v, MAX_DEPTH) && r == Canon(v)
  }

  ghost function ReadBack(lines: seq<ByteString>): seq<Result<Value>> {
    seq(|lines|, i requires 0 <= i < |lines| => Strict(lines[i]))
  }

  function Oks(vs: seq<Value>): seq<Result<Value>> {
    seq(|vs|, i requires 0 <= i < |vs| => Ok(vs[i]))
  }

  /** The canonical forms of a list of values. */
  ghost function Canons(vs: seq<Value>): seq<ByteString> {
    seq(|vs|, i requires 0 <= i < |vs| => Canon(vs[i]))
  }

  lemma {:induction false} ReadBackSubsequence(a: seq<ByteString>, b: seq<ByteString>)
    requires SpoolSafety.Subsequence(a, b)
    ensures SpoolSafety.Subsequence(ReadBack(a), ReadBack(b))
    decreases |b|
  {
    if b != [] {
      var b1 := b[..|b| - 1];
      assert ReadBack(b)[..|b| - 1] == ReadBack(b1);
      if SpoolSafety.Subsequence(a, b1) {
        ReadBackSubsequence(a, b1);
      } else {
        var a1 := a[..|a| - 1];
        ReadBackSubsequence(a1, b1);
        assert ReadBack(a)[..|a| - 1] == ReadBack(a1);
      }
    }
  }

  lemma ReadBackCanons(vs: seq<Value>)
    requires forall i | 0 <= i < |vs| :: Serializable(vs[i], MAX_DEPTH)
    ensures ReadBack(Canons(vs)) == Oks(vs)
  {
    forall i | 0 <= i < |vs| ensures ReadBack(Canons(vs))[i] == Oks(vs)[i] {
      RoundTrips(vs[i]);
    }
  }

  /** Let any number of processes append canonical forms through any interleaving, failures
      and crashes. Split into lines and strictly decoded, the spool gives back every
      acknowledged value in the order of acknowledgement, and besides them only values that
      were submitted; no line fails to decode. */
  lemma SpoolReadsBack(mode: Durability.Mode, acts: seq<Concurrent.Action>, acked: seq<Value>)
    requires Concurrent.Feasible(mode, Concurrent.Start(), acts)
    requires mode.HostLoss? || forall i | 0 <= i < |acts| :: !acts[i].PowerCut?
    requires forall p, r | Concurrent.Call(p, Spool.Submit(r)) in acts :: CanonicalRecord(r)
    requires forall i | 0 <= i < |acked| :: Serializable(acked[i], MAX_DEPTH)
    requires Concurrent.AckedBy(mode, acts) == Canons(acked)
    ensures var lines := Lines(Cached(Concurrent.After(mode, Concurrent.Start(), acts).disk.file));
      && SpoolSafety.Subsequence(Oks(acked), ReadBack(lines))
      && forall l | l in lines :: Strict(l).Ok? && Canon(Strict(l).value) == l && Concurrent.SubmittedBy(acts, l)
  {
    Concurrent.ConcurrentSafety(mode, acts);
    var lines := Lines(Cached(Concurrent.After(mode, Concurrent.Start(), acts).disk.file));
    ReadBackSubsequence(Canons(acked), lines);
    ReadBackCanons(acked);
    forall l | l in lines ensures Strict(l).Ok? && Canon(Strict(l).value) == l && Concurrent.SubmittedBy(acts, l) {
      var p :| Concurrent.Call(p, Spool.Submit(l)) in acts;
      assert CanonicalRecord(l);
      var v :| Serializable(v, MAX_DEPTH) && l == Canon(v);
      RoundTrips(v);
    }
  }

  /** Append never turns a canonical form away. */
  lemma CanonicalRecordsAreAccepted(r: ByteString)
    requires CanonicalRecord(r)
    ensures Framable(r)
  {
    var v :| Serializable(v, MAX_DEPTH) && r == Canon(v);
    CanonFramable(v);
  }

  /** The lines of a text for a reader that breaks at every Unicode line break and takes a
      carriage return with its line feed as one; `line` is what precedes `cs` on its line. */
  function UnicodeLines(cs: Text, line: Text): seq<Text> {
    if cs == [] then if line == [] then [] else [line]
    else if !IsLineBreak(cs[0]) then UnicodeLines(cs[1..], line + [cs[0]])
    else if cs[0] == CR && |cs| > 1 && cs[1] == LF then [line] + UnicodeLines(cs[2..], [])
    else [line] + UnicodeLines(cs[1..], [])
  }

  function Texts(rs: seq<ByteString>): seq<Text> {
    seq(|rs|, i requires 0 <= i < |rs| => Decode(rs[i]))
  }

  /** Texts as one, each followed by a newline. */
  function Joined(ts: seq<Text>): Text {
    if ts == [] then [] else Joined(ts[..|ts| - 1]) + (ts[|ts| - 1] + [LF])
  }

  predicate OneLineText(t: Text) {
    forall i | 0 <= i < |t| :: !IsLineBreak(t[i])
  }

  lemma {:induction false} OneLine(d: Text, rest: Text, line: Text)
    requires OneLineText(d)
    ensures UnicodeLines(d + [LF] + rest, line) == [line + d] + UnicodeLines(rest, [])
    decreases d
  {
    var cs := d + [LF] + rest;
    if d == [] {
      assert cs[1..] == rest && line + d == line;
    } else {
      OneLine(d[1..], rest, line + [d[0]]);
      assert cs[1..] == d[1..] + [LF] + rest;
      assert line + [d[0]] + d[1..] == line + d;
    }
  }

  lemma {:induction false} LinesOfJoined(ts: seq<Text>, rest: Text)
    requires forall t | t in ts :: OneLineText(t)
    ensures UnicodeLines(Joined(ts) + rest, []) == ts + UnicodeLines(rest, [])
    decreases |ts|
  {
    if ts == [] {
      assert Joined(ts) + rest == rest;
    } else {
      var n := |ts| - 1;
      var t, tail := ts[n], ts[n] + [LF] + rest;
      LinesOfJoined(ts[..n], tail);
      assert Joined(ts) + rest == Joined(ts[..n]) + tail;
      OneLine(t, rest, []);
      assert [] + t == t;
      assert ts == ts[..n] + [t];
    }
  }

  lemma EncodeLine(before: Text, t: Text)
    ensures Encode(before + (t + [LF])) == Encode(before) + (Encode(t) + [LF])
  {
    EncodeConcat(before, t + [LF]);
    EncodeConcat(t, [LF]);
    assert Encode([LF]) == [LF];
  }

  lemma {:induction false} JoinedEncodes(rs: seq<ByteString>)
    requires forall r | r in rs :: Encode(Decode(r)) == r
    ensures Encode(Joined(Texts(rs))) == LinesText(rs)
    decreases |rs|
  {
    if rs != [] {
      var n := |rs| - 1;
      assert Texts(rs)[..n] == Texts(rs[..n]);
      JoinedEncodes(rs[..n]);
      EncodeLine(Joined(Texts(rs[..n])), Decode(rs[n]));
    }
  }

  lemma CanonicalRecordIsClean(r: ByteString)
    requires CanonicalRecord(r)
    ensures Clean(r)
  {
    var v :| Serializable(v, MAX_DEPTH) && r == Canon(v);
    CanonClean(v);
  }

  lemma CleanLines(rs: seq<ByteString>)
    requires forall r | r in rs :: Clean(r)
    ensures Valid(LinesText(rs)) && UnicodeLines(Decode(LinesText(rs)), []) == Texts(rs)
  {
    var all := Joined(Texts(rs));
    JoinedEncodes(rs);
    DecodeInvertsEncode(all);
    LinesOfJoined(Texts(rs), []);
    assert all + [] == all && UnicodeLines([], []) == [];
  }

  /** Every reader cuts a spool of canonical records the same way: the text is valid UTF-8,
      and splitting its bytes at newlines or its characters at any Unicode line break both
      give the records. */
  lemma SplittersAgree(rs: seq<ByteString>)
    requires forall r | r in rs :: CanonicalRecord(r)
    ensures Valid(LinesText(rs))
    ensures Lines(LinesText(rs)) == rs
    ensures UnicodeLines(Decode(LinesText(rs)), []) == Texts(rs)
  {
    forall r | r in rs ensures LF !in r && Clean(r) {
      CanonicalRecordsAreAccepted(r);
      FramableNoLF(r);
      CanonicalRecordIsClean(r);
    }
    LinesOfText(rs);
    CleanLines(rs);
  }
}
