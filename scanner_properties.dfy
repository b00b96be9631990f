/**
 * What the scan of `Patches.parse` guarantees for every input: which lines
 * end up in patches and in what order, how many patches there can be, when
 * the last line flushes, and what each header line does to the state.
 */
module ScannerProperties {
  import opened Wrappers
  import opened RubyText
  import opened PatchRecord
  import opened DiffScanner

  /** The in-body flag after one line, from its kind alone: `diff` clears it, `+++` sets it. */
  function BodyAfter(b: bool, line: string): bool {
    match Classify(line)
    case SectionStart => false
    case NewFile(_) => true
    case NewFileAbsent => true
    case _ => b
  }

  /** The in-body flag after the lines `ls`, starting from `b`. */
  function BodyAfterAll(b: bool, ls: seq<string>): bool
    decreases |ls|
  {
    if ls == [] then b else BodyAfterAll(BodyAfter(b, ls[0]), ls[1..])
  }

  /**
   * The lines of `ls` that are body lines met while in a body, in input
   * order: the lines the buffer is meant to take.
   */
  function Accepted(b: bool, ls: seq<string>): seq<string>
    decreases |ls|
  {
    if ls == [] then []
    else (if b && Classify(ls[0]).BodyLine? then [ls[0]] else []) + Accepted(BodyAfter(b, ls[0]), ls[1..])
  }

  /** The lines of all the patches, one patch after the other. */
  function AllLines(ps: seq<Patch>): seq<string> {
    if ps == [] then [] else AllLines(ps[..|ps| - 1]) + ps[|ps| - 1].lines
  }

  /** A patch as the scanner builds it: some lines, none holding '\n'. */
  predicate Buffered(p: Patch) {
    p.lines != [] && forall k :: 0 <= k < |p.lines| ==> '\n' !in p.lines[k]
  }

  /** Every line of `ls` is free of '\n'. */
  predicate NoNewlines(ls: seq<string>) {
    forall k :: 0 <= k < |ls| ==> '\n' !in ls[k]
  }

  /** The number of `+++ b/` and `+++ /dev/null` lines in `ls`. */
  function MarkerCount(ls: seq<string>): nat {
    if ls == [] then 0
    else
      var k := Classify(ls[|ls| - 1]);
      MarkerCount(ls[..|ls| - 1]) + (if k.NewFile? || k.NewFileAbsent? then 1 else 0)
  }

  /** 1 when the state may still emit a patch without a further `+++` line. */
  function Open(st: ScanState): nat {
    if st.buffer != [] || st.body then 1 else 0
  }

  /**
   * One line moves the in-body flag as its kind says, and moves at most
   * itself (when it is a body line met in a body) from the input into the
   * buffer: buffered and emitted lines together only grow by that line.
   */
  lemma StepKeepsLines(st: ScanState, line: string, isLast: bool)
    ensures Step(st, line, isLast).body == BodyAfter(st.body, line)
    ensures var s := Step(st, line, isLast);
            AllLines(s.parsed) + s.buffer
            == AllLines(st.parsed) + st.buffer + (if st.body && Classify(line).BodyLine? then [line] else [])
    ensures st.parsed <= Step(st, line, isLast).parsed
  {
    var s := Step(st, line, isLast);
    var p := Patch(st.buffer, st.fileName, st.origFileName, st.diffType);
    match Classify(line)
    case SectionStart =>
      if st.buffer != [] {
        assert (st.parsed + [p])[..|st.parsed|] == st.parsed;
      }
    case BodyLine =>
      var t := if st.body then st.(buffer := st.buffer + [line]) else st;
      if t.buffer != [] && t.body && isLast {
        var q := Patch(t.buffer, t.fileName, t.origFileName, t.diffType);
        assert (st.parsed + [q])[..|st.parsed|] == st.parsed;
      }
    case _ =>
  }

  /** Over any stretch of lines, the in-body flag is the one the line kinds alone determine. */
  lemma {:induction false} RunKeepsBody(st: ScanState, ls: seq<string>, atEnd: bool)
    ensures Run(st, ls, atEnd).body == BodyAfterAll(st.body, ls)
    decreases |ls|
  {
    if ls != [] {
      var s := Step(st, ls[0], atEnd && |ls| == 1);
      StepKeepsLines(st, ls[0], atEnd && |ls| == 1);
      RunKeepsBody(s, ls[1..], atEnd);
    }
  }

  /**
   * Over any stretch of lines, the lines emitted or still buffered grow by
   * exactly the accepted lines of the stretch, in order, each once.
   */
  lemma {:induction false} RunKeepsLines(st: ScanState, ls: seq<string>, atEnd: bool)
    ensures var r := Run(st, ls, atEnd);
            AllLines(r.parsed) + r.buffer == AllLines(st.parsed) + st.buffer + Accepted(st.body, ls)
    decreases |ls|
  {
    if ls != [] {
      var s := Step(st, ls[0], atEnd && |ls| == 1);
      var r := Run(s, ls[1..], atEnd);
      var x := if st.body && Classify(ls[0]).BodyLine? then [ls[0]] else [];
      StepKeepsLines(st, ls[0], atEnd && |ls| == 1);
      RunKeepsLines(s, ls[1..], atEnd);
      assert Accepted(st.body, ls) == x + Accepted(s.body, ls[1..]);
      Regroup(AllLines(st.parsed) + st.buffer, AllLines(s.parsed) + s.buffer, AllLines(r.parsed) + r.buffer,
              x, Accepted(s.body, ls[1..]), Accepted(st.body, ls));
    }
  }

  /** Growing by `x` and then by `a` is growing by `x + a`. */
  lemma Regroup(p: seq<string>, q: seq<string>, r: seq<string>, x: seq<string>, a: seq<string>, b: seq<string>)
    requires q == p + x && r == q + a && b == x + a
    ensures r == p + b
  {
  }

  /** The patches already emitted stay in place, in order, at the front. */
  lemma {:induction false} RunKeepsParsed(st: ScanState, ls: seq<string>, atEnd: bool)
    ensures st.parsed <= Run(st, ls, atEnd).parsed
    decreases |ls|
  {
    if ls != [] {
      var s := Step(st, ls[0], atEnd && |ls| == 1);
      StepKeepsLines(st, ls[0], atEnd && |ls| == 1);
      RunKeepsParsed(s, ls[1..], atEnd);
    }
  }

  /**
   * The lines of the patches `parse` returns, followed by what is left in
   * the buffer at the end, are exactly the body lines met while in a body:
   * nothing else enters a patch, nothing is reordered or duplicated. In
   * particular no `---`/`+++` header and no `diff` line ever does.
   */
  lemma ParsedLinesAreAcceptedLines(ls: seq<string>)
    ensures AllLines(ParseLines(ls)) + Run(Start, ls, true).buffer == Accepted(false, ls)
  {
    RunKeepsLines(Start, ls, true);
  }

  /** Scanning keeps patches non-empty and free of '\n' when the lines are. */
  lemma {:induction false} RunKeepsPatchesBuffered(st: ScanState, ls: seq<string>, atEnd: bool)
    requires NoNewlines(ls) && NoNewlines(st.buffer)
    requires forall i :: 0 <= i < |st.parsed| ==> Buffered(st.parsed[i])
    ensures NoNewlines(Run(st, ls, atEnd).buffer)
    ensures forall i :: 0 <= i < |Run(st, ls, atEnd).parsed| ==> Buffered(Run(st, ls, atEnd).parsed[i])
    decreases |ls|
  {
    if ls != [] {
      var s := Step(st, ls[0], atEnd && |ls| == 1);
      assert NoNewlines(s.buffer);
      assert forall i :: 0 <= i < |s.parsed| ==> Buffered(s.parsed[i]);
      RunKeepsPatchesBuffered(s, ls[1..], atEnd);
    }
  }

  /**
   * Every patch `parse` emits has a non-empty buffer, so its raw text is
   * non-empty and ends in '\n', and cutting that text into lines gives back
   * its buffered lines in order.
   */
  lemma ParsedPatchesAreBuffered(contents: string)
    ensures forall i :: 0 <= i < |ParseText(contents)| ==> Buffered(ParseText(contents)[i])
    ensures forall i :: 0 <= i < |ParseText(contents)| ==>
              var p := ParseText(contents)[i];
              Lines(p.Body()) == seq(|p.lines|, k requires 0 <= k < |p.lines| => p.lines[k] + "\n")
  {
    var ls := ChompAll(Lines(contents));
    ChompedLinesHaveNoNewline(contents);
    RunKeepsPatchesBuffered(Start, ls, true);
    forall i | 0 <= i < |ParseText(contents)|
      ensures var p := ParseText(contents)[i];
              Lines(p.Body()) == seq(|p.lines|, k requires 0 <= k < |p.lines| => p.lines[k] + "\n")
    {
      BodyLinesRoundTrip(ParseText(contents)[i]);
    }
  }

  /**
   * What `parse` promises of every text: nothing for the empty text; each
   * patch non-empty with newline-terminated raw text; at most one patch per
   * `+++` line; the patches' lines, in order, a prefix of the accepted lines.
   */
  lemma ParseTextFacts(contents: string)
    ensures contents == "" ==> ParseText(contents) == []
    ensures forall i :: 0 <= i < |ParseText(contents)| ==>
              var p := ParseText(contents)[i];
              p.lines != [] && p.Body()[|p.Body()| - 1] == '\n'
    ensures |ParseText(contents)| <= MarkerCount(ChompAll(Lines(contents)))
    ensures AllLines(ParseText(contents)) <= Accepted(false, ChompAll(Lines(contents)))
  {
    var ls := ChompAll(Lines(contents));
    ParsedPatchesAreBuffered(contents);
    ParsedCountBound(ls);
    ParsedLinesAreAcceptedLines(ls);
  }

  /**
   * The tail flush: when the last line is a body line met while in a body,
   * nothing is left pending, and the emitted patches hold exactly the
   * accepted lines.
   */
  lemma TailFlushEmitsAllAccepted(ls: seq<string>)
    requires ls != []
    requires Classify(ls[|ls| - 1]).BodyLine?
    requires BodyAfterAll(false, ls[..|ls| - 1])
    ensures Run(Start, ls, true).buffer == []
    ensures AllLines(ParseLines(ls)) == Accepted(false, ls)
  {
    RunLast(Start, ls, true);
    RunKeepsBody(Start, ls[..|ls| - 1], false);
    ParsedLinesAreAcceptedLines(ls);
  }

  /**
   * The tail flush fires only for a last body line met in a body: for any
   * other last line, and for a body line arriving last outside a body, the
   * scan ends exactly as if more input followed, so a buffer still pending
   * then is never emitted.
   */
  lemma NoTailFlushUnlessBodyLine(ls: seq<string>)
    requires ls != []
    requires !Classify(ls[|ls| - 1]).BodyLine? || !BodyAfterAll(false, ls[..|ls| - 1])
    ensures Run(Start, ls, true) == Run(Start, ls, false)
  {
    RunLast(Start, ls, true);
    RunLast(Start, ls, false);
    RunKeepsBody(Start, ls[..|ls| - 1], false);
    StepLastOnlyForBodyLine(Run(Start, ls[..|ls| - 1], false), ls[|ls| - 1]);
  }

  /**
   * Outside a body the buffer is always empty: it holds from `Start` on, so
   * a body line arriving last outside a body has nothing to lose by not
   * flushing.
   */
  lemma {:induction false} ClosedBufferEmpty(st: ScanState, ls: seq<string>, atEnd: bool)
    requires !st.body ==> st.buffer == []
    ensures !Run(st, ls, atEnd).body ==> Run(st, ls, atEnd).buffer == []
    decreases |ls|
  {
    if ls != [] {
      ClosedBufferEmpty(Step(st, ls[0], atEnd && |ls| == 1), ls[1..], atEnd);
    }
  }

  /**
   * A last line that no pattern matches (a blank line, say) changes
   * nothing: the patches are those emitted before it, and the buffer
   * pending before it is dropped.
   */
  lemma TrailingIgnoredLineDropsPending(ls: seq<string>)
    requires ls != []
    requires Classify(ls[|ls| - 1]).Ignored?
    ensures ParseLines(ls) == Run(Start, ls[..|ls| - 1], false).parsed
    ensures Run(Start, ls, true).buffer == Run(Start, ls[..|ls| - 1], false).buffer
  {
    RunLast(Start, ls, true);
    StepLastOnlyForBodyLine(Run(Start, ls[..|ls| - 1], false), ls[|ls| - 1]);
  }

  /**
   * The patches emitted before any line stay, in order, at the front of the
   * result: patches appear in the order their sections end.
   */
  lemma EmittedPatchesStay(ls: seq<string>, k: nat)
    requires k <= |ls|
    ensures Run(Start, ls[..k], false).parsed <= ParseLines(ls)
  {
    if k < |ls| {
      assert ls == ls[..k] + ls[k..];
      RunAppend(Start, ls[..k], ls[k..], true);
      RunKeepsParsed(Run(Start, ls[..k], false), ls[k..], true);
    } else if ls != [] {
      assert ls[..k] == ls;
      RunLast(Start, ls, true);
      RunLast(Start, ls, false);
      StepLastOnlyForBodyLine(Run(Start, ls[..|ls| - 1], false), ls[|ls| - 1]);
    }
  }

  /**
   * A patch is emitted only by a state that has seen a `+++` line since
   * its last flush: without the tail flush, patches emitted plus a pending
   * one never outnumber the `+++` lines, and with it one line adds at most
   * the patch already counted as pending.
   */
  lemma StepCount(st: ScanState, line: string, isLast: bool)
    ensures |Step(st, line, isLast).parsed| <= |st.parsed| + Open(st)
    ensures var k := Classify(line);
            !isLast ==>
              |Step(st, line, isLast).parsed| + Open(Step(st, line, isLast))
              <= |st.parsed| + Open(st) + (if k.NewFile? || k.NewFileAbsent? then 1 else 0)
  {
  }

  lemma {:induction false} RunCountNotAtEnd(st: ScanState, ls: seq<string>)
    ensures |Run(st, ls, false).parsed| + Open(Run(st, ls, false)) <= |st.parsed| + Open(st) + MarkerCount(ls)
    decreases |ls|
  {
    if ls != [] {
      var n := |ls|;
      RunLast(st, ls, false);
      RunCountNotAtEnd(st, ls[..n - 1]);
      StepCount(Run(st, ls[..n - 1], false), ls[n - 1], false);
    }
  }

  /** `parse` returns at most one patch per `+++ b/` or `+++ /dev/null` line. */
  lemma ParsedCountBound(ls: seq<string>)
    ensures |ParseLines(ls)| <= MarkerCount(ls)
  {
    if ls != [] {
      var n := |ls|;
      RunLast(Start, ls, true);
      RunCountNotAtEnd(Start, ls[..n - 1]);
      StepCount(Run(Start, ls[..n - 1], false), ls[n - 1], true);
    }
  }

  /**
   * What each header line does. `diff` always leaves the body; it emits a
   * patch, and resets the names and the kind, only when the buffer holds
   * lines. `--- a/p` and `--- /dev/null` set the prior name. `+++ b/p`
   * enters the body with kind add exactly when the prior name is nil, and
   * change otherwise; `+++ /dev/null` enters it with kind delete and the
   * prior name as the file name. No header line touches the buffer.
   */
  lemma HeaderLineEffects(st: ScanState, line: string, isLast: bool)
    ensures var s := Step(st, line, isLast);
            Classify(line).SectionStart? ==>
              && !s.body
              && (st.buffer == [] ==> s == st.(body := false))
              && (st.buffer != [] ==>
                    && s.parsed == st.parsed + [Patch(st.buffer, st.fileName, st.origFileName, st.diffType)]
                    && s.buffer == [] && s.fileName == Some("") && s.origFileName == Some("")
                    && s.diffType == Change)
    ensures var s := Step(st, line, isLast);
            Classify(line).OrigFile? ==> s == st.(origFileName := Some(Classify(line).path))
    ensures var s := Step(st, line, isLast);
            Classify(line).OrigFileAbsent? ==> s == st.(origFileName := None)
    ensures var s := Step(st, line, isLast);
            Classify(line).NewFile? ==>
              && s.body && s.fileName == Some(Classify(line).path)
              && (s.diffType == Add <==> st.origFileName == None)
              && (s.diffType == Change <==> st.origFileName != None)
              && s.parsed == st.parsed && s.buffer == st.buffer && s.origFileName == st.origFileName
    ensures var s := Step(st, line, isLast);
            Classify(line).NewFileAbsent? ==>
              && s.body && s.fileName == st.origFileName && s.diffType == Delete
              && s.parsed == st.parsed && s.buffer == st.buffer && s.origFileName == st.origFileName
  {
  }

  /**
   * A hunk whose final line is followed by one blank line: the trailing
   * blank line is the last line, so the tail flush never fires and the
   * single section yields nothing.
   */
  lemma TrailingBlankLineExample()
    ensures ParseLines(["diff --git a/x b/x", "--- a/x", "+++ b/x", "@@ -1 +1 @@", "+y", ""]) == []
    ensures ParseLines(["diff --git a/x b/x", "--- a/x", "+++ b/x", "@@ -1 +1 @@", "+y"])
            == [Patch(["@@ -1 +1 @@", "+y"], Some("x"), Some("x"), Change)]
  {
    var s3 := Start.(body := true, fileName := Some("x"), origFileName := Some("x"));
    var s5 := s3.(buffer := ["@@ -1 +1 @@", "+y"]);
    assert Classify("diff --git a/x b/x") == SectionStart;
    assert Classify("--- a/x") == OrigFile("x");
    assert Classify("+++ b/x") == NewFile("x");
    assert Classify("@@ -1 +1 @@") == BodyLine;
    assert Classify("+y") == BodyLine;
    assert Classify("") == Ignored;
    assert Run(s5, [""], true) == s5;
    assert Run(s3, ["@@ -1 +1 @@", "+y", ""], true) == s5;
    assert Run(Start, ["diff --git a/x b/x", "--- a/x", "+++ b/x", "@@ -1 +1 @@", "+y", ""], true) == s5;
    assert Run(s3, ["@@ -1 +1 @@", "+y"], true) == Flush(s5);
    assert Run(Start, ["diff --git a/x b/x", "--- a/x", "+++ b/x", "@@ -1 +1 @@", "+y"], true) == Flush(s5);
  }
}
