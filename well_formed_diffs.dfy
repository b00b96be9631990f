/**
 * `git diff` output built from well-formed file sections, and the theorem
 * that `parse` recovers one patch per section that has hunk lines, in order,
 * with the section's paths, kind of change and hunk lines.
 */
module WellFormedDiffs {
  import opened Wrappers
  import opened RubyText
  import opened PatchRecord
  import opened DiffScanner

  /** One file's section as `git diff` writes it. */
  datatype Section = Section(
    header: string,          // the rest of the `diff --git a/... b/...` line
    extended: seq<string>,   // `index ...`, `new file mode ...` and similar lines
    oldPath: Option<string>, // `--- a/<path>`, or `--- /dev/null` when None
    newPath: Option<string>, // `+++ b/<path>`, or `+++ /dev/null` when None
    hunks: seq<string>)      // `@@ ... @@` headers and context, added and removed lines

  function OldLine(s: Section): string {
    match s.oldPath
    case Some(p) => "--- a/" + p
    case None => "--- /dev/null"
  }

  function NewLine(s: Section): string {
    match s.newPath
    case Some(p) => "+++ b/" + p
    case None => "+++ /dev/null"
  }

  /** The lines of a section, without terminators. */
  function Render(s: Section): seq<string> {
    Head(s) + s.hunks
  }

  function RenderAll(ss: seq<Section>): seq<string> {
    if ss == [] then [] else Render(ss[0]) + RenderAll(ss[1..])
  }

  /**
   * A section the scanner reads as intended: its extended header lines
   * match no pattern, and every hunk line is a body line (so none of them
   * looks like a header).
   */
  predicate WellFormed(s: Section) {
    && (forall k :: 0 <= k < |s.extended| ==> Classify(s.extended[k]).Ignored?)
    && (forall k :: 0 <= k < |s.hunks| ==> Classify(s.hunks[k]).BodyLine?)
  }

  /**
   * A section whose lines survive being written out with '\n' terminators
   * and cut and chomped again: no line holds '\n' or ends in '\r'.
   */
  predicate Clean(s: Section) {
    forall k :: 0 <= k < |Render(s)| ==> '\n' !in Render(s)[k] && !EndsWithCR(Render(s)[k])
  }

  /**
   * The patch a section stands for: a deleted file keeps its old path as
   * its file, a file with no old side is an addition, anything else a
   * change.
   */
  function Expected(s: Section): Patch {
    Patch(s.hunks,
          if s.newPath.None? then s.oldPath else s.newPath,
          s.oldPath,
          if s.newPath.None? then Delete else if s.oldPath.None? then Add else Change)
  }

  /** One expected patch per section with hunk lines, in section order. */
  function ExpectedAll(ss: seq<Section>): seq<Patch> {
    if ss == [] then []
    else (if ss[0].hunks != [] then [Expected(ss[0])] else []) + ExpectedAll(ss[1..])
  }

  /** The patch the state would emit at a flush: none when its buffer is empty. */
  function Pending(st: ScanState): seq<Patch> {
    if st.buffer == [] then [] else [Patch(st.buffer, st.fileName, st.origFileName, st.diffType)]
  }

  /** Lines that match no pattern leave the state as it was. */
  lemma {:induction false} IgnoredLinesChangeNothing(st: ScanState, ls: seq<string>, atEnd: bool)
    requires forall k :: 0 <= k < |ls| ==> Classify(ls[k]).Ignored?
    ensures Run(st, ls, atEnd) == st
    decreases |ls|
  {
    if ls != [] {
      assert Classify(ls[0]).Ignored?;
      IgnoredLinesChangeNothing(st, ls[1..], atEnd);
    }
  }

  /**
   * Body lines met in a body all go to the buffer; when the last of them
   * is the input's last line the buffer is flushed.
   */
  lemma {:induction false} HunkRun(st: ScanState, hunks: seq<string>, atEnd: bool)
    requires st.body
    requires forall k :: 0 <= k < |hunks| ==> Classify(hunks[k]).BodyLine?
    ensures (!atEnd || hunks == []) ==> Run(st, hunks, atEnd) == st.(buffer := st.buffer + hunks)
    ensures (atEnd && hunks != []) ==> Run(st, hunks, atEnd) == Flush(st.(buffer := st.buffer + hunks))
    decreases |hunks|
  {
    if hunks == [] {
      assert st.buffer + hunks == st.buffer;
    } else {
      assert Classify(hunks[0]).BodyLine?;
      var s := st.(buffer := st.buffer + [hunks[0]]);
      assert st.buffer + hunks == s.buffer + hunks[1..];
      if |hunks| > 1 {
        assert Run(st, hunks, atEnd) == Run(s, hunks[1..], atEnd);
        HunkRun(s, hunks[1..], atEnd);
      } else {
        assert hunks == [hunks[0]];
        assert Run(st, hunks, atEnd) == Step(st, hunks[0], atEnd);
      }
    }
  }

  /** The header lines of a section: everything up to its first hunk line. */
  function Head(s: Section): seq<string> {
    ["diff" + s.header] + s.extended + [OldLine(s), NewLine(s)]
  }

  /** A `diff` line emits the pending patch, if any, and leaves the body. */
  lemma DiffLineStep(st: ScanState, header: string, isLast: bool)
    ensures var r := Step(st, "diff" + header, isLast);
            r.parsed == st.parsed + Pending(st) && r.buffer == [] && !r.body
  {
    ClassifyHeaders(header);
  }

  /** A section's `---` line sets the prior name and nothing else. */
  lemma OldLineStep(st: ScanState, s: Section, isLast: bool)
    ensures Step(st, OldLine(s), isLast) == st.(origFileName := s.oldPath)
  {
    match s.oldPath {
      case Some(p) => ClassifyHeaders(p);
      case None => ClassifyHeaders(""); assert "--- /dev/null" + "" == OldLine(s);
    }
  }

  /** A section's `+++` line, once its `---` line is read, sets the file name and the kind and opens the body. */
  lemma NewLineStep(st: ScanState, s: Section, isLast: bool)
    requires st.origFileName == s.oldPath
    ensures Step(st, NewLine(s), isLast)
            == st.(body := true, fileName := Expected(s).file, diffType := Expected(s).diffType)
  {
    match s.newPath {
      case Some(p) => ClassifyHeaders(p);
      case None => ClassifyHeaders(""); assert "+++ /dev/null" + "" == NewLine(s);
    }
  }

  /** The `---` and `+++` lines of a section set both names and the kind, and open the body. */
  lemma PathLinesRun(st: ScanState, s: Section, atEnd: bool)
    ensures Run(st, [OldLine(s), NewLine(s)], atEnd)
            == st.(body := true, fileName := Expected(s).file, origFileName := s.oldPath,
                   diffType := Expected(s).diffType)
  {
    var st2 := Step(st, OldLine(s), false);
    OldLineStep(st, s, false);
    NewLineStep(st2, s, atEnd);
    assert [OldLine(s), NewLine(s)][1..] == [NewLine(s)];
    assert Run(st, [OldLine(s), NewLine(s)], atEnd) == Run(st2, [NewLine(s)], atEnd);
    assert Run(st2, [NewLine(s)], atEnd) == Step(st2, NewLine(s), atEnd);
  }

  /**
   * The header lines of a well-formed section: whatever was pending is
   * emitted, and the body opens with an empty buffer and the section's
   * names and kind.
   */
  lemma HeadRun(st: ScanState, s: Section, atEnd: bool)
    requires WellFormed(s)
    ensures Run(st, Head(s), atEnd)
            == ScanState(true, Expected(s).file, s.oldPath, [], Expected(s).diffType, st.parsed + Pending(st))
  {
    var d := "diff" + s.header;
    var tail := [OldLine(s), NewLine(s)];
    var h := Head(s);
    assert h[0] == d && h[1..] == s.extended + tail && |h| > 1;
    var st1 := Step(st, d, false);
    DiffLineStep(st, s.header, false);
    assert Run(st, h, atEnd) == Run(st1, s.extended + tail, atEnd);
    RunAppend(st1, s.extended, tail, atEnd);
    IgnoredLinesChangeNothing(st1, s.extended, false);
    PathLinesRun(st1, s, atEnd);
  }

  /**
   * One well-formed section: its `diff` line flushes what was pending
   * before it; by its end the body is open and the section's own hunk lines,
   * paths and kind are pending, or, on the input's last line, emitted.
   */
  lemma SectionRun(st: ScanState, s: Section, atEnd: bool)
    requires WellFormed(s)
    ensures var r := Run(st, Render(s), atEnd);
            && (!atEnd ==> r.parsed == st.parsed + Pending(st))
            && (!atEnd ==> Pending(r) == if s.hunks != [] then [Expected(s)] else [])
            && (atEnd ==> r.parsed == st.parsed + Pending(st) + if s.hunks != [] then [Expected(s)] else [])
  {
    assert Render(s) == Head(s) + s.hunks;
    RunAppend(st, Head(s), s.hunks, atEnd);
    var e := atEnd && s.hunks == [];
    HeadRun(st, s, e);
    var st3 := Run(st, Head(s), e);
    assert st3.(buffer := st3.buffer + s.hunks) == st3.(buffer := s.hunks);
    HunkRun(st3, s.hunks, atEnd);
  }

  /**
   * Well-formed sections, one after the other, to the end of the input:
   * the scan emits what was pending before them and then exactly the
   * expected patches.
   */
  lemma {:induction false} SectionsRun(st: ScanState, ss: seq<Section>)
    requires ss != []
    requires forall i :: 0 <= i < |ss| ==> WellFormed(ss[i])
    ensures Run(st, RenderAll(ss), true).parsed == st.parsed + Pending(st) + ExpectedAll(ss)
    decreases |ss|
  {
    if |ss| == 1 {
      assert ss[1..] == [];
      assert RenderAll(ss) == Render(ss[0]) + [] == Render(ss[0]);
      assert ExpectedAll(ss) == (if ss[0].hunks != [] then [Expected(ss[0])] else []) + [];
      SectionRun(st, ss[0], true);
    } else {
      var rest := RenderAll(ss[1..]);
      assert rest != [] by {
        assert rest == Render(ss[1]) + RenderAll(ss[2..]);
      }
      assert RenderAll(ss) == Render(ss[0]) + rest;
      RunAppend(st, Render(ss[0]), rest, true);
      var mid := Run(st, Render(ss[0]), false);
      SectionRun(st, ss[0], false);
      SectionsRun(mid, ss[1..]);
      var own := if ss[0].hunks != [] then [Expected(ss[0])] else [];
      var later := ExpectedAll(ss[1..]);
      assert ExpectedAll(ss) == own + later;
      assert Run(st, RenderAll(ss), true).parsed == mid.parsed + Pending(mid) + later;
      Regroup(st.parsed + Pending(st), own, later);
    }
  }

  /** Appending `b` and then `c` is appending `b + c`. */
  lemma Regroup(a: seq<Patch>, b: seq<Patch>, c: seq<Patch>)
    ensures a + b + c == a + (b + c)
  {
  }

  /**
   * `parse` over well-formed sections yields exactly one patch per section
   * that has hunk lines, in section order, each with the section's hunk
   * lines, file, prior file and kind of change.
   */
  lemma ParseRenderedSections(ss: seq<Section>)
    requires forall i :: 0 <= i < |ss| ==> WellFormed(ss[i])
    ensures ParseLines(RenderAll(ss)) == ExpectedAll(ss)
  {
    if ss != [] {
      SectionsRun(Start, ss);
    }
  }

  lemma {:induction false} RenderedLinesAreClean(ss: seq<Section>)
    requires forall i :: 0 <= i < |ss| ==> Clean(ss[i])
    ensures forall k :: 0 <= k < |RenderAll(ss)| ==> '\n' !in RenderAll(ss)[k] && !EndsWithCR(RenderAll(ss)[k])
    decreases |ss|
  {
    if ss != [] {
      RenderedLinesAreClean(ss[1..]);
      var a := Render(ss[0]);
      var b := RenderAll(ss[1..]);
      forall k | 0 <= k < |a + b|
        ensures '\n' !in (a + b)[k] && !EndsWithCR((a + b)[k])
      {
        if k >= |a| {
          assert (a + b)[k] == b[k - |a|];
        }
      }
    }
  }

  /**
   * The same for the text itself, every line terminated by '\n' as
   * `git diff` writes it, when no line holds '\n' or ends in '\r'.
   */
  lemma ParseRenderedText(ss: seq<Section>)
    requires forall i :: 0 <= i < |ss| ==> WellFormed(ss[i]) && Clean(ss[i])
    ensures ParseText(Terminated(RenderAll(ss))) == ExpectedAll(ss)
  {
    RenderedLinesAreClean(ss);
    ChompedLinesOfTerminated(RenderAll(ss));
    ParseRenderedSections(ss);
  }

  /**
   * With every section carrying hunk lines, the result has one patch per
   * section and lists the sections' files in order.
   */
  lemma {:induction false} OnePatchPerSection(ss: seq<Section>)
    requires forall i :: 0 <= i < |ss| ==> ss[i].hunks != []
    ensures |ExpectedAll(ss)| == |ss|
    ensures forall i :: 0 <= i < |ss| ==> ExpectedAll(ss)[i] == Expected(ss[i])
    decreases |ss|
  {
    if ss != [] {
      OnePatchPerSection(ss[1..]);
    }
  }

  /**
   * `n` well-formed sections, each with hunk lines, give exactly `n`
   * patches, the `i`-th the patch of the `i`-th section.
   */
  lemma OnePatchPerWellFormedSection(ss: seq<Section>)
    requires forall i :: 0 <= i < |ss| ==> WellFormed(ss[i]) && ss[i].hunks != []
    ensures |ParseLines(RenderAll(ss))| == |ss|
    ensures forall i :: 0 <= i < |ss| ==> ParseLines(RenderAll(ss))[i] == Expected(ss[i])
  {
    ParseRenderedSections(ss);
    OnePatchPerSection(ss);
  }
}
