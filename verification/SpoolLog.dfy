/** What the spool promises, told as a history: the records each writer incarnation had
    acknowledged, and the one it may have left in doubt. */
module SpoolLog {
  import opened Utf8
  import opened Values
  import opened SpoolFile

  /** acked: the appends that returned success, in order. tail: a submitted record whose
      append has not returned success. */
  datatype Incarnation = Incarnation(acked: seq<ByteString>, tail: Maybe)
  datatype Maybe = Nothing | Just(record: ByteString)
  type Log = seq<Incarnation>

  function Line(record: ByteString): ByteString { record + [LF] }

  function LinesText(rs: seq<ByteString>): ByteString {
    if rs == [] then [] else LinesText(rs[..|rs| - 1]) + Line(rs[|rs| - 1])
  }

  /** The records an incarnation contributes, its doubtful one included or not. */
  function Records(inc: Incarnation, keep: bool): seq<ByteString> {
    inc.acked + if keep && inc.tail.Just? then [inc.tail.record] else []
  }

  /** The records of a history: every acknowledged one in order, and of each incarnation
      at most the one unacknowledged record, last. */
  function Kept(log: Log, keep: seq<bool>): seq<ByteString>
    requires |keep| == |log|
  {
    if log == [] then []
    else Kept(log[..|log| - 1], keep[..|log| - 1]) + Records(log[|log| - 1], keep[|log| - 1])
  }

  predicate LineFree(log: Log) {
    forall i | 0 <= i < |log| ::
      && (forall j | 0 <= j < |log[i].acked| :: LF !in log[i].acked[j])
      && (log[i].tail.Just? ==> LF !in log[i].tail.record)
  }

  /** The newline-terminated lines of a file. */
  function Lines(img: ByteString): seq<ByteString>
    decreases |img|
  {
    var body := Repaired(img);
    if body == [] then []
    else
      var rest := Repaired(body[..|body| - 1]);
      Lines(rest) + [body[|rest|..|body| - 1]]
  }

  lemma LinesStep(t: ByteString, r: ByteString)
    requires Framed(t) && LF !in r
    ensures Lines(t + Line(r)) == Lines(t) + [r] && Framed(t + Line(r))
  {
    var s := t + Line(r);
    LineEnds(t, r);
    RepairedOver(t, r);
    assert Repaired(s) == s;
  }

  lemma LineEnds(t: ByteString, r: ByteString)
    ensures var s := t + Line(r);
      |s| == |t| + |r| + 1 && s[|s| - 1] == LF && s[..|s| - 1] == t + r && s[|t|..|s| - 1] == r
  {
  }

  /** Splitting inverts framing. */
  lemma {:induction false} LinesOfText(rs: seq<ByteString>)
    requires forall i | 0 <= i < |rs| :: LF !in rs[i]
    ensures Lines(LinesText(rs)) == rs && Framed(LinesText(rs))
  {
    if rs != [] {
      var n := |rs| - 1;
      var t, r := LinesText(rs[..n]), rs[n];
      LinesOfText(rs[..n]);
      assert LF !in r;
      LinesStep(t, r);
      InitLast(rs);
    }
  }

  lemma InitLast(rs: seq<ByteString>)
    requires rs != []
    ensures rs[..|rs| - 1] + [rs[|rs| - 1]] == rs
  {
  }

  lemma TextSnoc(rs: seq<ByteString>, r: ByteString)
    ensures LinesText(rs + [r]) == LinesText(rs) + Line(r)
  {
    assert (rs + [r])[..|rs|] == rs;
  }

  lemma LinesOfRepaired(img: ByteString)
    ensures Lines(img) == Lines(Repaired(img))
  {
  }

  /** Framing inverts splitting, as far as the file is complete. */
  lemma {:induction false} TextOfLines(img: ByteString)
    ensures LinesText(Lines(img)) == Repaired(img)
    decreases |img|
  {
    var body := Repaired(img);
    if body != [] {
      var n := |body| - 1;
      var rest := Repaired(body[..n]);
      TextOfLines(rest);
      TextSnoc(Lines(rest), body[|rest|..n]);
      LastLine(body, rest);
    }
  }

  lemma LastLine(body: ByteString, rest: ByteString)
    requires body != [] && body[|body| - 1] == LF && rest <= body[..|body| - 1]
    ensures rest + Line(body[|rest|..|body| - 1]) == body
  {
  }

  /** Two files have the same lines exactly when they repair to the same content. */
  lemma LinesDetermine(a: ByteString, b: ByteString)
    ensures Lines(a) == Lines(b) <==> Repaired(a) == Repaired(b)
  {
    TextOfLines(a);
    TextOfLines(b);
    LinesOfRepaired(a);
    LinesOfRepaired(b);
  }

  /** A longer file keeps the lines of a framed beginning. */
  lemma {:induction false} LinesGrow(a: ByteString, b: ByteString)
    requires Framed(a) && a <= b
    ensures Lines(a) <= Lines(b)
    decreases |b|
  {
    var body := Repaired(b);
    LinesOfRepaired(b);
    PrefixRepaired(a, b);
    if |a| < |body| {
      var init := body[..|body| - 1];
      PrefixRepaired(a, init);
      LinesGrow(a, Repaired(init));
      LinesSnoc(body);
    }
  }

  lemma LinesSnoc(body: ByteString)
    requires body != [] && body[|body| - 1] == LF
    ensures Lines(Repaired(body[..|body| - 1])) <= Lines(body)
  {
    assert Repaired(body) == body;
  }

  lemma PrefixRepaired(p: ByteString, img: ByteString)
    requires Framed(p) && p <= img
    ensures p <= Repaired(img)
    ensures |p| < |Repaired(img)| ==> p <= Repaired(img)[..|Repaired(img)| - 1]
    ensures |p| == |Repaired(img)| ==> p == Repaired(img)
  {
    assert img[..|p|] == p;
    RepairedIsLongest(img, |p|);
  }

  /** The file's complete lines are the records of the history, for some choice of the
      doubtful ones. */
  ghost predicate Faithful(img: ByteString, log: Log) {
    exists keep: seq<bool> :: |keep| == |log| && Repaired(img) == LinesText(Kept(log, keep))
  }

  lemma {:induction false} KeptLineFree(log: Log, keep: seq<bool>)
    requires |keep| == |log| && LineFree(log)
    ensures forall i | 0 <= i < |Kept(log, keep)| :: LF !in Kept(log, keep)[i]
  {
    if log != [] {
      KeptLineFree(log[..|log| - 1], keep[..|log| - 1]);
    }
  }

  /** In terms of lines: nothing fused, cut, reordered or invented, nothing acknowledged lost. */
  lemma FaithfulLines(img: ByteString, log: Log)
    requires Faithful(img, log) && LineFree(log)
    ensures exists keep: seq<bool> :: |keep| == |log| && Lines(img) == Kept(log, keep)
  {
    var keep :| |keep| == |log| && Repaired(img) == LinesText(Kept(log, keep));
    KeptLineFree(log, keep);
    LinesOfText(Kept(log, keep));
    LinesOfRepaired(img);
    assert Lines(img) == Kept(log, keep);
  }

  // ---- How histories grow ------------------------------------------------------------

  function Last(log: Log): Incarnation
    requires log != []
  {
    log[|log| - 1]
  }

  /** Replacing the last incarnation by one that contributes the same records. */
  lemma KeptReplaced(log: Log, keep: seq<bool>, inc: Incarnation, k: bool)
    requires |keep| == |log| && log != []
    requires Records(inc, k) == Records(Last(log), keep[|log| - 1])
    ensures Kept(WithLast(log, inc), keep[|log| - 1 := k]) == Kept(log, keep)
  {
    var n := |log| - 1;
    assert keep[n := k] == keep[..n] + [k];
    KeptSnoc(log[..n], keep[..n], inc, k);
  }

  /** A new writer incarnation. */
  function Opened(log: Log): Log { log + [Incarnation([], Nothing)] }

  function WithLast(log: Log, inc: Incarnation): Log
    requires log != []
  {
    log[..|log| - 1] + [inc]
  }

  /** The current incarnation submits a record. */
  function Submitted(log: Log, r: ByteString): Log
    requires log != []
  {
    WithLast(log, Incarnation(Last(log).acked, Just(r)))
  }

  /** Its append returns success. */
  function Acknowledged(log: Log): Log
    requires log != [] && Last(log).tail.Just?
  {
    WithLast(log, Incarnation(Last(log).acked + [Last(log).tail.record], Nothing))
  }

  lemma KeptSnoc(log: Log, keep: seq<bool>, inc: Incarnation, k: bool)
    requires |keep| == |log|
    ensures Kept(log + [inc], keep + [k]) == Kept(log, keep) + Records(inc, k)
  {
    assert (log + [inc])[..|log|] == log && (keep + [k])[..|log|] == keep;
  }

  lemma KeptLast(log: Log, keep: seq<bool>)
    requires |keep| == |log| && log != []
    ensures var n := |log| - 1; Kept(log, keep) == Kept(log[..n], keep[..n]) + Records(log[n], keep[n])
  {
  }

  lemma FaithfulOpened(img: ByteString, log: Log)
    requires Faithful(img, log)
    ensures Faithful(img, Opened(log))
  {
    var keep :| |keep| == |log| && Repaired(img) == LinesText(Kept(log, keep));
    KeptSnoc(log, keep, Incarnation([], Nothing), false);
    assert Kept(Opened(log), keep + [false]) == Kept(log, keep);
  }

  lemma FaithfulSubmitted(img: ByteString, log: Log, r: ByteString)
    requires log != [] && Last(log).tail.Nothing? && Faithful(img, log)
    ensures Faithful(img, Submitted(log, r)) && FaithfulWithout(img, Submitted(log, r))
  {
    var keep :| |keep| == |log| && Repaired(img) == LinesText(Kept(log, keep));
    var n := |log| - 1;
    KeptReplaced(log, keep, Incarnation(Last(log).acked, Just(r)), false);
    var keep1 := keep[n := false];
    assert |keep1| == |Submitted(log, r)| && !keep1[n] && Repaired(img) == LinesText(Kept(Submitted(log, r), keep1));
  }

  /** The image holds everything, the record in doubt included and last. */
  ghost predicate EndsWithTail(img: ByteString, log: Log) {
    exists keep: seq<bool> :: |keep| == |log| && log != [] && keep[|log| - 1] && img == LinesText(Kept(log, keep))
  }

  lemma EndsWithTailFaithful(img: ByteString, log: Log)
    requires EndsWithTail(img, log)
    ensures Faithful(img, log) && Framed(img)
  {
    var keep: seq<bool> :| |keep| == |log| && log != [] && keep[|log| - 1] && img == LinesText(Kept(log, keep));
    TextFramed(Kept(log, keep));
  }

  lemma TextFramed(rs: seq<ByteString>)
    ensures Framed(LinesText(rs)) && Repaired(LinesText(rs)) == LinesText(rs)
  {
    if rs != [] {
      var s := LinesText(rs);
      assert s[|s| - 1] == LF;
    }
  }

  /** Writing the whole line of the submitted record. */
  lemma WholeLine(img: ByteString, log: Log)
    requires log != [] && Last(log).tail.Just? && Framed(img) && LF !in Last(log).tail.record
    requires FaithfulWithout(img, log)
    ensures EndsWithTail(img + Line(Last(log).tail.record), log)
  {
    var keep: seq<bool> :| |keep| == |log| && !keep[|log| - 1] && Repaired(img) == LinesText(Kept(log, keep));
    FramedIsRepaired(img);
    KeptWhole(log, keep);
    EndsIntro(img + Line(Last(log).tail.record), log, keep[|log| - 1 := true]);
  }

  lemma FramedIsRepaired(img: ByteString)
    ensures Framed(img) <==> Repaired(img) == img
  {
  }

  lemma EndsIntro(img: ByteString, log: Log, keep: seq<bool>)
    requires |keep| == |log| && log != [] && keep[|log| - 1] && img == LinesText(Kept(log, keep))
    ensures EndsWithTail(img, log)
  {
  }

  lemma KeptWhole(log: Log, keep: seq<bool>)
    requires |keep| == |log| && log != [] && !keep[|log| - 1] && Last(log).tail.Just?
    ensures LinesText(Kept(log, keep[|log| - 1 := true])) == LinesText(Kept(log, keep)) + Line(Last(log).tail.record)
  {
    KeptBoth(log, keep);
    TextSnoc(Kept(log, keep), Last(log).tail.record);
  }

  /** Counting the doubtful record in adds it at the end. */
  lemma KeptBoth(log: Log, keep: seq<bool>)
    requires |keep| == |log| && log != [] && !keep[|log| - 1] && Last(log).tail.Just?
    ensures var n := |log| - 1;
      Kept(log, keep[n := true]) == Kept(log, keep) + [Last(log).tail.record]
  {
    var n := |log| - 1;
    var keep1 := keep[n := true];
    assert keep1[..n] == keep[..n];
    KeptLast(log, keep);
    KeptLast(log, keep1);
    assert log[n].acked + [] == log[n].acked;
    assert Kept(log, keep1) == Kept(log[..n], keep[..n]) + (log[n].acked + [log[n].tail.record]);
  }

  /** Faithful, and the record in doubt is not in the image. */
  ghost predicate FaithfulWithout(img: ByteString, log: Log) {
    exists keep: seq<bool> :: |keep| == |log| && log != [] && !keep[|log| - 1] && Repaired(img) == LinesText(Kept(log, keep))
  }

  /** Any part of the line leaves the image faithful: a proper part is repaired away, the
      whole is the doubtful record. */
  lemma PartOfLine(img: ByteString, log: Log, k: nat)
    requires log != [] && Last(log).tail.Just? && Framed(img) && LF !in Last(log).tail.record
    requires FaithfulWithout(img, log) && k <= |Line(Last(log).tail.record)|
    ensures Faithful(img + Line(Last(log).tail.record)[..k], log)
  {
    var r := Last(log).tail.record;
    if k == |Line(r)| {
      WholeLine(img, log);
      assert Line(r)[..k] == Line(r);
      EndsWithTailFaithful(img + Line(r), log);
    } else {
      assert Line(r)[..k] == r[..k];
      RepairedOver(img, r[..k]);
    }
  }

  /** The acknowledgement changes no byte. */
  lemma AcknowledgedFaithful(img: ByteString, log: Log)
    requires EndsWithTail(img, log) && Last(log).tail.Just?
    ensures Faithful(img, Acknowledged(log))
  {
    var keep: seq<bool> :| |keep| == |log| && keep[|log| - 1] && img == LinesText(Kept(log, keep));
    var n := |log| - 1;
    var inc := Incarnation(Last(log).acked + [Last(log).tail.record], Nothing);
    assert Records(inc, false) == Records(Last(log), true);
    KeptReplaced(log, keep, inc, false);
    TextFramed(Kept(log, keep));
    assert |keep[n := false]| == |log| && Kept(Acknowledged(log), keep[n := false]) == Kept(log, keep);
  }
}
