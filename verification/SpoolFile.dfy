/** The spool file on disk: what the page cache holds, what a host loss may leave of it,
    and the longest newline-terminated prefix that tail repair keeps. */
module SpoolFile {
  import opened Utf8
  import opened Values

  /** Appends go to the end of the file (O_APPEND). */
  datatype FileOp = Write(data: ByteString) | Truncate(length: nat)

  /** durable has reached the platter; pending has been done since, in order. */
  datatype File = File(durable: ByteString, pending: seq<FileOp>)

  function Apply(img: ByteString, op: FileOp): ByteString {
    match op
    case Write(data) => img + data
    case Truncate(n) => if n <= |img| then img[..n] else img
  }

  function ApplyAll(img: ByteString, ops: seq<FileOp>): ByteString
    decreases |ops|
  {
    if ops == [] then img else ApplyAll(Apply(img, ops[0]), ops[1..])
  }

  /** What every process reads. */
  function Cached(f: File): ByteString { ApplyAll(f.durable, f.pending) }

  function Pend(f: File, op: FileOp): File { File(f.durable, f.pending + [op]) }

  lemma {:induction false} ApplyAllSnoc(img: ByteString, ops: seq<FileOp>, op: FileOp)
    ensures ApplyAll(img, ops + [op]) == Apply(ApplyAll(img, ops), op)
    decreases |ops|
  {
    if ops != [] {
      assert (ops + [op])[0] == ops[0] && (ops + [op])[1..] == ops[1..] + [op];
      ApplyAllSnoc(Apply(img, ops[0]), ops[1..], op);
    } else {
      assert ([op])[1..] == [];
    }
  }

  /** The ordered crash model: a host loss leaves the durable image plus a prefix of the
      pending operations, the last write cut at any byte. */
  ghost predicate Survives(durable: ByteString, pending: seq<FileOp>, img: ByteString)
    decreases |pending|
  {
    || img == durable
    || (pending != [] && (CutWrite(durable, pending[0], img) || Survives(Apply(durable, pending[0]), pending[1..], img)))
  }

  ghost predicate CutWrite(durable: ByteString, op: FileOp, img: ByteString) {
    op.Write? && exists k :: 0 <= k <= |op.data| && img == durable + op.data[..k]
  }

  /** The same, told at once: everything up to some operation, and of that one, if it is a
      write, any beginning. */
  ghost predicate CutAt(durable: ByteString, pending: seq<FileOp>, i: nat, img: ByteString) {
    i <= |pending| &&
    var done := ApplyAll(durable, pending[..i]);
    img == done || (i < |pending| && pending[i].Write? && done <= img <= done + pending[i].data)
  }

  /** Of a write any beginning may have reached the platter, and nothing else. */
  lemma WriteIsCut(durable: ByteString, op: FileOp, img: ByteString)
    ensures CutWrite(durable, op, img) <==> op.Write? && durable <= img <= durable + op.data
  {
    if op.Write? && durable <= img <= durable + op.data {
      assert img == durable + op.data[..|img| - |durable|];
    }
  }

  lemma {:induction false} SurvivesExactly(durable: ByteString, pending: seq<FileOp>, img: ByteString)
    ensures Survives(durable, pending, img) <==> exists i: nat :: CutAt(durable, pending, i, img)
    decreases |pending|
  {
    if pending == [] {
      assert img == durable ==> CutAt(durable, pending, 0, img);
    } else {
      var next, rest := Apply(durable, pending[0]), pending[1..];
      SurvivesExactly(next, rest, img);
      WriteIsCut(durable, pending[0], img);
      assert CutAt(durable, pending, 0, img) <==> img == durable || CutWrite(durable, pending[0], img);
      forall i: nat | i <= |rest| ensures CutAt(durable, pending, i + 1, img) <==> CutAt(next, rest, i, img) {
        assert pending[..i + 1][1..] == rest[..i];
      }
      forall i: nat | 0 < i <= |pending| ensures CutAt(durable, pending, i, img) <==> CutAt(next, rest, i - 1, img) {
        assert pending[..i][1..] == rest[..i - 1];
      }
    }
  }

  /** Everything done may have reached the platter. */
  lemma {:induction false} CachedSurvives(durable: ByteString, pending: seq<FileOp>)
    ensures Survives(durable, pending, ApplyAll(durable, pending))
    decreases |pending|
  {
    if pending != [] {
      CachedSurvives(Apply(durable, pending[0]), pending[1..]);
    }
  }

  // ---- Tail repair -------------------------------------------------------------------

  /** The longest prefix that is empty or ends in a newline. */
  function Repaired(img: ByteString): (r: ByteString)
    ensures r <= img
    ensures r == [] || r[|r| - 1] == LF
  {
    if img == [] || img[|img| - 1] == LF then img else Repaired(img[..|img| - 1])
  }

  predicate Framed(img: ByteString) { img == [] || img[|img| - 1] == LF }

  /** Nothing newline-terminated is longer, and what repair removes holds no newline. */
  lemma {:induction false} RepairedIsLongest(img: ByteString, n: nat)
    requires n <= |img| && Framed(img[..n])
    ensures n <= |Repaired(img)|
    ensures forall i | |Repaired(img)| <= i < |img| :: img[i] != LF
  {
    if !Framed(img) {
      assert n < |img|;
      var t := img[..|img| - 1];
      assert t[..n] == img[..n];
      RepairedIsLongest(t, n);
    }
  }

  lemma {:induction false} RepairedOver(body: ByteString, tail: ByteString)
    requires Framed(body) && LF !in tail
    ensures Repaired(body + tail) == body
  {
    if tail == [] {
      assert body + tail == body;
    } else {
      var s := body + tail;
      assert s[|s| - 1] == tail[|tail| - 1];
      assert tail[|tail| - 1] in tail;
      assert s[..|s| - 1] == body + tail[..|tail| - 1];
      RepairedOver(body, tail[..|tail| - 1]);
    }
  }

  /** A framed prefix with no newline after it is what repair keeps. */
  lemma RepairedAt(img: ByteString, n: nat)
    requires n <= |img| && Framed(img[..n]) && forall i | n <= i < |img| :: img[i] != LF
    ensures Repaired(img) == img[..n]
  {
    assert img == img[..n] + img[n..];
    RepairedOver(img[..n], img[n..]);
  }

  lemma RepairIdempotent(img: ByteString)
    ensures Repaired(Repaired(img)) == Repaired(img)
  {
  }

  // ---- Repair after a host loss ------------------------------------------------------

  /** The operation touches no complete line: it writes no newline, or cuts none off. */
  predicate Harmless(img: ByteString, op: FileOp) {
    match op
    case Write(data) => LF !in data
    case Truncate(n) => |Repaired(img)| <= n
  }

  /** No unsynced operation touches a complete line. */
  predicate Settled(img: ByteString, pending: seq<FileOp>)
    decreases |pending|
  {
    pending == [] || (Harmless(img, pending[0]) && Settled(Apply(img, pending[0]), pending[1..]))
  }

  lemma WriteHarmless(img: ByteString, data: ByteString)
    ensures LF !in data <==> Repaired(img + data) == Repaired(img)
  {
    var n := |Repaired(img)|;
    RepairedIsLongest(img, 0);
    if LF in data {
      var i :| 0 <= i < |data| && data[i] == LF;
      assert (img + data)[..|img| + i + 1][|img| + i] == LF;
      RepairedIsLongest(img + data, |img| + i + 1);
    } else {
      assert (img + data)[..n] == img[..n];
      RepairedAt(img + data, n);
    }
  }

  lemma TruncateHarmless(img: ByteString, n: nat)
    ensures |Repaired(img)| <= n <==> Repaired(Apply(img, Truncate(n))) == Repaired(img)
  {
    if |Repaired(img)| <= n <= |img| {
      RepairedIsLongest(img, 0);
      assert img[..n][..|Repaired(img)|] == Repaired(img);
      RepairedAt(img[..n], |Repaired(img)|);
    }
  }

  lemma HarmlessIff(img: ByteString, op: FileOp)
    ensures Harmless(img, op) <==> Repaired(Apply(img, op)) == Repaired(img)
  {
    match op
    case Write(data) => WriteHarmless(img, data);
    case Truncate(n) => TruncateHarmless(img, n);
  }

  ghost predicate AllRepairTo(durable: ByteString, pending: seq<FileOp>, r: ByteString) {
    forall x | Survives(durable, pending, x) :: Repaired(x) == r
  }

  /** Everything a host loss may leave repairs to the same content exactly when no unsynced
      operation touches a complete line. */
  lemma {:induction false} AlikeIffSettled(durable: ByteString, pending: seq<FileOp>)
    ensures AllRepairTo(durable, pending, Repaired(durable)) <==> Settled(durable, pending)
    decreases |pending|
  {
    if pending != [] {
      var op, next := pending[0], Apply(durable, pending[0]);
      HarmlessIff(durable, op);
      AlikeIffSettled(next, pending[1..]);
      assert Survives(next, pending[1..], next);
      assert forall x | Survives(next, pending[1..], x) :: Survives(durable, pending, x);
      forall x | Settled(durable, pending) && Survives(durable, pending, x) ensures Repaired(x) == Repaired(durable) {
        CutHarmless(durable, op, x);
      }
    }
  }

  /** A part of a harmless write is harmless. */
  lemma CutHarmless(img: ByteString, op: FileOp, x: ByteString)
    ensures Harmless(img, op) && CutWrite(img, op, x) ==> Repaired(x) == Repaired(img)
  {
    if Harmless(img, op) && CutWrite(img, op, x) {
      var k :| 0 <= k <= |op.data| && x == img + op.data[..k];
      WriteHarmless(img, op.data[..k]);
    }
  }

  /** The same with the content that every process reads. */
  lemma SettledCached(f: File)
    ensures AllRepairTo(f.durable, f.pending, Repaired(Cached(f))) <==> Settled(f.durable, f.pending)
    ensures Settled(f.durable, f.pending) ==> Repaired(Cached(f)) == Repaired(f.durable)
  {
    CachedSurvives(f.durable, f.pending);
    AlikeIffSettled(f.durable, f.pending);
    assert Survives(f.durable, f.pending, f.durable);
  }

  lemma {:induction false} SurvivesLonger(durable: ByteString, pending: seq<FileOp>, op: FileOp, img: ByteString)
    requires Survives(durable, pending, img)
    ensures Survives(durable, pending + [op], img)
    decreases |pending|
  {
    if img != durable && !CutWrite(durable, pending[0], img) {
      assert (pending + [op])[0] == pending[0] && (pending + [op])[1..] == pending[1..] + [op];
      SurvivesLonger(Apply(durable, pending[0]), pending[1..], op, img);
    } else if img != durable {
      assert (pending + [op])[0] == pending[0];
    }
  }

  /** What one more operation adds to the images a host loss may leave. */
  lemma {:induction false} SurvivesDo(durable: ByteString, pending: seq<FileOp>, op: FileOp, img: ByteString)
    requires Survives(durable, pending + [op], img)
    ensures Survives(durable, pending, img)
         || CutWrite(ApplyAll(durable, pending), op, img)
         || img == Apply(ApplyAll(durable, pending), op)
    decreases |pending|
  {
    if pending == [] {
      assert (pending + [op])[1..] == [];
    } else if img != durable && !CutWrite(durable, pending[0], img) {
      assert (pending + [op])[0] == pending[0] && (pending + [op])[1..] == pending[1..] + [op];
      SurvivesDo(Apply(durable, pending[0]), pending[1..], op, img);
    }
  }

  /** A host loss between the cut of repair and its sync leaves a file that repairs to the
      same content, whatever it leaves, exactly when before the cut no unsynced write held a
      newline and no unsynced truncate had cut one off. */
  lemma RepairConverges(f: File)
    ensures AllRepairTo(f.durable, f.pending + [Truncate(|Repaired(Cached(f))|)], Repaired(Cached(f)))
        <==> Settled(f.durable, f.pending)
  {
    var r := Repaired(Cached(f));
    var op := Truncate(|r|);
    SettledCached(f);
    assert Cached(f)[..|r|] == r;
    RepairIdempotent(Cached(f));
    forall x | Survives(f.durable, f.pending + [op], x) && Settled(f.durable, f.pending) ensures Repaired(x) == r {
      SurvivesDo(f.durable, f.pending, op, x);
    }
    forall x | Survives(f.durable, f.pending, x) ensures Survives(f.durable, f.pending + [op], x) {
      SurvivesLonger(f.durable, f.pending, op, x);
    }
  }
}
